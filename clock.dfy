/** The clock (second-chance) scan of BufMgr::allocBuf, as a function of the
    frame table and the hand. It stops at the first free frame or the first
    unpinned frame whose refbit is clear, clearing each set refbit it passes. */
module Clock {
  import opened BufTypes

  datatype Outcome = Free(frame: int) | Victim(frame: int) | Exhausted

  /** What a scan found, and the frame table and hand it leaves behind. */
  datatype ScanOut = ScanOut(outcome: Outcome, table: seq<BufDesc>, hand: int)

  /** advanceClock() of buf.h: the hand moves on by one frame, wrapping at the pool size. */
  function Advance(h: int, n: int): (r: int)
    requires 0 <= h < n
    ensures 0 <= r < n
    ensures r == if h + 1 == n then 0 else h + 1
  {
    AdvanceWraps(h, n);
    (h + 1) % n
  }

  lemma AdvanceWraps(h: int, n: int)
    requires 0 <= h < n
    ensures (h + 1) % n == if h + 1 == n then 0 else h + 1
  {
    if h + 1 == n {
      assert (h + 1) % n == n % n == 0;
    } else {
      assert 0 <= h + 1 < n;
    }
  }

  /** How many advances take the hand from frame `h` to frame `i` in a pool of `n` frames. */
  function Dist(h: int, i: int, n: int): (d: int) {
    if h <= i then i - h else i - h + n
  }

  /** `u` differs from `t` at most in refbits, and only in refbits that were set and are now clear. */
  predicate OnlyRefbitsCleared(t: seq<BufDesc>, u: seq<BufDesc>) {
    |u| == |t| &&
    forall i :: 0 <= i < |t| ==> SameButRefbit(t[i], u[i]) && (u[i].refbit ==> t[i].refbit)
  }

  /** Two descriptors that agree on every field except perhaps the refbit. */
  predicate SameButRefbit(a: BufDesc, b: BufDesc) {
    a.file == b.file && a.pageNo == b.pageNo && a.frameNo == b.frameNo &&
    a.pinCnt == b.pinCnt && a.dirty == b.dirty && a.valid == b.valid
  }

  /** At most `k` iterations of the loop of allocBuf (buf.C:78-121), before the victim is handled. */
  function Scan(t: seq<BufDesc>, h: int, k: nat): (r: ScanOut)
    requires k == 0 || 0 <= h < |t|
    ensures |r.table| == |t|
    decreases k
  {
    if k == 0 then ScanOut(Exhausted, t, h)
    else if !t[h].valid then ScanOut(Free(h), t, h)
    else if t[h].refbit then Scan(t[h := t[h].(refbit := false)], Advance(h, |t|), k - 1)
    else if t[h].pinCnt == 0 then ScanOut(Victim(h), t, h)
    else Scan(t, Advance(h, |t|), k - 1)
  }

  /** The scan only clears refbits, and never touches an empty frame. It leaves
      the hand on the frame it returns, which is empty, or valid, unpinned and
      with its refbit clear. */
  lemma {:induction false} ScanFacts(t: seq<BufDesc>, h: int, k: nat)
    requires k == 0 || 0 <= h < |t|
    ensures var r := Scan(t, h, k);
            OnlyRefbitsCleared(t, r.table) &&
            (forall i :: 0 <= i < |t| && !t[i].valid ==> r.table[i] == t[i]) &&
            (k == 0 ==> r.hand == h) &&
            (k > 0 ==> 0 <= r.hand < |t|) &&
            (r.outcome.Free? ==> r.outcome.frame == r.hand && 0 <= r.hand < |t| && !r.table[r.hand].valid) &&
            (r.outcome.Victim? ==>
               r.outcome.frame == r.hand && 0 <= r.hand < |t| && r.table[r.hand].valid &&
               !r.table[r.hand].refbit && r.table[r.hand].pinCnt == 0)
    decreases k
  {
    if k > 0 && t[h].valid {
      if t[h].refbit {
        ScanFacts(t[h := t[h].(refbit := false)], Advance(h, |t|), k - 1);
      } else if t[h].pinCnt != 0 {
        ScanFacts(t, Advance(h, |t|), k - 1);
      }
    }
  }

  /** allocBuf's loop part way: table `t` and hand `h` are where the scan from
      `t0` and `h0` has got to, with `k` of its 2 * numBufs steps left. */
  predicate Scanned(t0: seq<BufDesc>, h0: int, t: seq<BufDesc>, h: int, k: nat) {
    (|t0| == 0 || 0 <= h0 < |t0|) && OnlyRefbitsCleared(t0, t) && (|t| == 0 || 0 <= h < |t|) &&
    k <= 2 * |t| && Scan(t0, h0, 2 * |t0|) == Scan(t, h, k)
  }

  lemma ScannedStarts(t: seq<BufDesc>, h: int)
    requires |t| == 0 || 0 <= h < |t|
    ensures Scanned(t, h, t, h, 2 * |t|)
  {
  }

  /** One step of the loop that neither returns nor stops: a set refbit at the
      hand is cleared and the hand advances. */
  lemma ScannedSteps(t0: seq<BufDesc>, h0: int, t: seq<BufDesc>, h: int, k: nat)
    requires Scanned(t0, h0, t, h, k) && k > 0
    requires t[h].valid && (t[h].refbit || t[h].pinCnt != 0)
    ensures Scanned(t0, h0, if t[h].refbit then t[h := t[h].(refbit := false)] else t, Advance(h, |t|), k - 1)
  {
  }

  /** When every frame is valid and pinned, no number of steps finds a frame, and
      every frame the hand passed has its refbit cleared. */
  lemma {:induction false} AllPinnedExhausts(t: seq<BufDesc>, h: int, k: nat)
    requires k == 0 || 0 <= h < |t|
    requires forall i :: 0 <= i < |t| ==> t[i].valid && t[i].pinCnt > 0
    ensures Scan(t, h, k).outcome == Exhausted
    ensures forall j :: 0 <= j < |t| && 0 <= h < |t| && Dist(h, j, |t|) < k ==> !Scan(t, h, k).table[j].refbit
    decreases k
  {
    if k > 0 {
      var n := |t|;
      var t' := if t[h].refbit then t[h := t[h].(refbit := false)] else t;
      var h' := Advance(h, n);
      assert Scan(t, h, k) == Scan(t', h', k - 1);
      AllPinnedExhausts(t', h', k - 1);
      ScanFacts(t', h', k - 1);
      var u := Scan(t', h', k - 1).table;
      forall j | 0 <= j < n && Dist(h, j, n) < k
        ensures !u[j].refbit
      {
        if j != h {
          assert Dist(h', j, n) == Dist(h, j, n) - 1;
        } else {
          assert !t'[j].refbit;
        }
      }
    }
  }

  /** Where `k` advances take the hand from `h` in a pool of `n` frames. */
  function Steps(h: int, k: nat, n: int): (r: int)
    requires 0 <= h < n
    ensures 0 <= r < n
    decreases k
  {
    if k == 0 then h else Steps(Advance(h, n), k - 1, n)
  }

  /** `a + b` advances are `a` advances followed by `b`. */
  lemma {:induction false} StepsCompose(h: int, a: nat, b: nat, n: int)
    requires 0 <= h < n
    ensures Steps(h, a + b, n) == Steps(Steps(h, a, n), b, n)
    decreases a
  {
    if a > 0 {
      StepsCompose(Advance(h, n), a - 1, b, n);
    }
  }

  /** Before the hand wraps, `k` advances add `k`. */
  lemma {:induction false} StepsUp(h: int, k: nat, n: int)
    requires 0 <= h < n && h + k <= n
    ensures Steps(h, k, n) == if h + k == n then 0 else h + k
    decreases k
  {
    if k > 0 && h + 1 < n {
      StepsUp(h + 1, k - 1, n);
    }
  }

  /** A full lap brings the hand back where it started. */
  lemma StepsLap(h: int, n: int)
    requires 0 <= h < n
    ensures Steps(h, n, n) == h
  {
    StepsCompose(h, n - h, h, n);
    StepsUp(h, n - h, n);
    StepsUp(0, h, n);
  }

  /** With every frame pinned, each step of the scan advances the hand by one. */
  lemma {:induction false} AllPinnedHand(t: seq<BufDesc>, h: int, k: nat)
    requires 0 <= h < |t|
    requires forall i :: 0 <= i < |t| ==> t[i].valid && t[i].pinCnt > 0
    ensures Scan(t, h, k).hand == Steps(h, k, |t|)
    decreases k
  {
    if k > 0 {
      var t' := if t[h].refbit then t[h := t[h].(refbit := false)] else t;
      assert Scan(t, h, k) == Scan(t', Advance(h, |t|), k - 1);
      AllPinnedHand(t', Advance(h, |t|), k - 1);
    }
  }

  /** When allocBuf gives up, its 2 * numBufs advances have brought the hand back
      to the frame it started from. */
  lemma ExhaustedScanKeepsHand(t: seq<BufDesc>, h: int)
    requires 0 <= h < |t|
    requires forall i :: 0 <= i < |t| ==> t[i].valid && t[i].pinCnt > 0
    ensures Scan(t, h, 2 * |t|).hand == h
  {
    AllPinnedHand(t, h, 2 * |t|);
    StepsCompose(h, |t|, |t|, |t|);
    StepsLap(h, |t|);
    StepsLap(h, |t|);
  }

  /** A frame the hand takes the first time it reaches it: empty, or unpinned
      with its refbit already clear. */
  predicate FirstLapCandidate(d: BufDesc) {
    !d.valid || (d.pinCnt == 0 && !d.refbit)
  }

  /** Table `t` with the refbit cleared on every frame fewer than `m` advances from hand `h`. */
  function ClearedBefore(t: seq<BufDesc>, h: int, m: int): (u: seq<BufDesc>)
    ensures |u| == |t|
  {
    seq(|t|, j requires 0 <= j < |t| => if Dist(h, j, |t|) < m then t[j].(refbit := false) else t[j])
  }

  /** One step of the scan at a valid frame it passes over. */
  lemma ScanStep(t: seq<BufDesc>, h: int, k: nat)
    requires 0 <= h < |t| && k > 0 && t[h].valid && (t[h].refbit || t[h].pinCnt != 0)
    ensures Scan(t, h, k) == Scan(if t[h].refbit then t[h := t[h].(refbit := false)] else t, Advance(h, |t|), k - 1)
  {
  }

  /** One step that passes frame `h`: clearing its refbit and clearing `m - 1`
      frames from the next hand position clears `m` frames from `h`. */
  lemma ClearedStep(t: seq<BufDesc>, h: int, m: int)
    requires 0 <= h < |t| && 0 < m <= |t|
    ensures ClearedBefore(if t[h].refbit then t[h := t[h].(refbit := false)] else t, Advance(h, |t|), m - 1) ==
            ClearedBefore(t, h, m)
  {
    var n := |t|;
    var t' := if t[h].refbit then t[h := t[h].(refbit := false)] else t;
    var h' := Advance(h, n);
    forall j | 0 <= j < n
      ensures ClearedBefore(t', h', m - 1)[j] == ClearedBefore(t, h, m)[j]
    {
      if j != h {
        assert Dist(h', j, n) == Dist(h, j, n) - 1;
      }
    }
  }

  /** When frame `c` is a candidate and no frame nearer the hand is, the scan
      stops at `c` having cleared the refbit of every frame it passed. */
  lemma {:induction false} StopsAtCandidate(t: seq<BufDesc>, h: int, k: nat, c: int)
    requires 0 <= h < |t| && 0 <= c < |t| && FirstLapCandidate(t[c])
    requires forall j :: 0 <= j < |t| && Dist(h, j, |t|) < Dist(h, c, |t|) ==> !FirstLapCandidate(t[j])
    requires k > Dist(h, c, |t|)
    ensures Scan(t, h, k) == ScanOut(if t[c].valid then Victim(c) else Free(c), ClearedBefore(t, h, Dist(h, c, |t|)), c)
    decreases k
  {
    var n := |t|;
    if h == c {
      assert ClearedBefore(t, h, 0) == t;
    } else {
      assert !FirstLapCandidate(t[h]);
      var t' := if t[h].refbit then t[h := t[h].(refbit := false)] else t;
      var h' := Advance(h, n);
      ScanStep(t, h, k);
      assert Dist(h', c, n) == Dist(h, c, n) - 1;
      forall j | 0 <= j < n && Dist(h', j, n) < Dist(h', c, n)
        ensures !FirstLapCandidate(t'[j])
      {
        assert j != h;
        assert Dist(h', j, n) == Dist(h, j, n) - 1;
      }
      StopsAtCandidate(t', h', k - 1, c);
      ClearedStep(t, h, Dist(h, c, n));
    }
  }

  /** While the hand meets no candidate, each of `m` steps clears the refbit it
      passes; the scan then goes on from the cleared table. */
  lemma {:induction false} PassesClearing(t: seq<BufDesc>, h: int, k: nat, m: nat)
    requires 0 <= h < |t| && m <= |t| && m <= k
    requires forall j :: 0 <= j < |t| && Dist(h, j, |t|) < m ==> !FirstLapCandidate(t[j])
    ensures Scan(t, h, k) == Scan(ClearedBefore(t, h, m), Steps(h, m, |t|), k - m)
    decreases m
  {
    var n := |t|;
    if m == 0 {
      assert ClearedBefore(t, h, 0) == t;
    } else {
      assert Dist(h, h, n) == 0;
      var t' := if t[h].refbit then t[h := t[h].(refbit := false)] else t;
      var h' := Advance(h, n);
      ScanStep(t, h, k);
      forall j | 0 <= j < n && Dist(h', j, n) < m - 1
        ensures !FirstLapCandidate(t'[j])
      {
        assert j != h;
        assert Dist(h', j, n) == Dist(h, j, n) - 1;
      }
      PassesClearing(t', h', k - 1, m - 1);
      ClearedStep(t, h, m);
      assert Steps(h, m, n) == Steps(h', m - 1, n);
    }
  }

  /** The clock policy, first lap: allocBuf takes the candidate nearest the hand
      (empty, or unpinned with its refbit clear), leaves the hand on it, and clears
      the refbit of exactly the frames it passed on the way. */
  lemma ScanTakesNearestCandidate(t: seq<BufDesc>, h: int, c: int)
    requires 0 <= h < |t| && 0 <= c < |t| && FirstLapCandidate(t[c])
    requires forall j :: 0 <= j < |t| && Dist(h, j, |t|) < Dist(h, c, |t|) ==> !FirstLapCandidate(t[j])
    ensures Scan(t, h, 2 * |t|) ==
            ScanOut(if t[c].valid then Victim(c) else Free(c), ClearedBefore(t, h, Dist(h, c, |t|)), c)
  {
    StopsAtCandidate(t, h, 2 * |t|, c);
  }

  /** The clock policy, second lap: with no candidate on the first lap, every
      refbit is cleared and allocBuf takes the unpinned frame nearest the hand. */
  lemma ScanTakesNearestUnpinned(t: seq<BufDesc>, h: int, c: int)
    requires 0 <= h < |t| && 0 <= c < |t|
    requires forall j :: 0 <= j < |t| ==> !FirstLapCandidate(t[j])
    requires t[c].pinCnt == 0
    requires forall j :: 0 <= j < |t| && Dist(h, j, |t|) < Dist(h, c, |t|) ==> t[j].pinCnt != 0
    ensures Scan(t, h, 2 * |t|) == ScanOut(Victim(c), ClearedBefore(t, h, |t|), c)
  {
    var n := |t|;
    var u := ClearedBefore(t, h, n);
    PassesClearing(t, h, 2 * n, n);
    StepsLap(h, n);
    forall j | 0 <= j < n && Dist(h, j, n) < Dist(h, c, n)
      ensures !FirstLapCandidate(u[j])
    {
    }
    StopsAtCandidate(u, h, n, c);
    assert ClearedBefore(u, h, Dist(h, c, n)) == u;
  }

  /** A frame that is free or unpinned is reached by the scan, given enough steps:
      at most one lap to reach it, and one more lap if its refbit must first be cleared. */
  lemma {:induction false} ReachesCandidate(t: seq<BufDesc>, h: int, k: nat, i: int)
    requires 0 <= h < |t| && 0 <= i < |t|
    requires !t[i].valid || t[i].pinCnt == 0
    requires k > Dist(h, i, |t|) + (if t[i].valid && t[i].refbit then |t| else 0)
    ensures Scan(t, h, k).outcome != Exhausted
    decreases k
  {
    var n := |t|;
    if !t[h].valid {
    } else if t[h].refbit {
      var t' := t[h := t[h].(refbit := false)];
      var h' := Advance(h, n);
      if h == i {
        assert Dist(h', i, n) == if n == 1 then 0 else n - 1;
      } else {
        assert Dist(h', i, n) == Dist(h, i, n) - 1;
      }
      ReachesCandidate(t', h', k - 1, i);
    } else if t[h].pinCnt == 0 {
    } else {
      var h' := Advance(h, n);
      assert Dist(h', i, n) == Dist(h, i, n) - 1;
      ReachesCandidate(t, h', k - 1, i);
    }
  }

  /** The two-lap bound of allocBuf is exact: a scan of 2 * numBufs steps fails
      precisely when every frame is valid and pinned. */
  lemma ScanExhaustedIffAllPinned(t: seq<BufDesc>, h: int)
    requires |t| == 0 || 0 <= h < |t|
    requires forall i :: 0 <= i < |t| ==> t[i].pinCnt >= 0
    ensures Scan(t, h, 2 * |t|).outcome == Exhausted <==>
            forall i :: 0 <= i < |t| ==> t[i].valid && t[i].pinCnt > 0
  {
    if forall i :: 0 <= i < |t| ==> t[i].valid && t[i].pinCnt > 0 {
      AllPinnedExhausts(t, h, 2 * |t|);
    } else {
      var i :| 0 <= i < |t| && !(t[i].valid && t[i].pinCnt > 0);
      ReachesCandidate(t, h, 2 * |t|, i);
    }
  }

  /** One frame holding a pinned page with its refbit set: the first step clears
      the refbit, the second finds the frame pinned, and the scan gives up. */
  lemma OnePinnedFrameFailsAfterTwoSteps(d: BufDesc)
    requires d.valid && d.refbit && d.pinCnt > 0
    ensures Scan([d], 0, 1).outcome == Exhausted
    ensures Scan([d], 0, 2) == ScanOut(Exhausted, [d.(refbit := false)], 0)
  {
  }

  /** A single lap is not enough: an unpinned frame whose refbit is set is only
      chosen on the second lap. */
  lemma SecondLapFindsVictim(d: BufDesc)
    requires d.valid && d.refbit && d.pinCnt == 0
    ensures Scan([d], 0, 1).outcome == Exhausted
    ensures Scan([d], 0, 2) == ScanOut(Victim(0), [d.(refbit := false)], 0)
  {
  }
}
