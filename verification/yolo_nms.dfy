/** Non-maximum suppression over the detections of one picture. */
module YoloNms {
  import opened BoxGeometry

  datatype Detection = Detection(bbox: Box, prob: seq<real>, objectness: real, sortClass: int)

  /** Every detection carries a score per class. */
  predicate Shaped(dets: seq<Detection>, classNum: nat) {
    forall d | d in dets :: |d.prob| == classNum
  }

  /** nms_comparator_v3: descending by the score of the sort class. */
  function Compare(a: Detection, b: Detection): int
    requires |a.prob| == |b.prob| && 0 <= b.sortClass < |b.prob|
  {
    var diff := a.prob[b.sortClass] - b.prob[b.sortClass];
    if diff < 0.0 then 1 else if diff > 0.0 then -1 else 0
  }

  // ---------------------------------------------------------------------- permutations

  /** A permutation with its inverse. */
  datatype Perm = Perm(to: seq<nat>, from: seq<nat>) {
    ghost predicate Valid(n: nat) {
      && |to| == |from| == n
      && (forall x | 0 <= x < n :: to[x] < n && from[to[x]] == x)
      && (forall i | 0 <= i < n :: from[i] < n && to[from[i]] == i)
    }
  }

  function Identity(n: nat): (p: Perm)
    ensures p.Valid(n)
  {
    Perm(seq(n, i => i), seq(n, i => i))
  }

  ghost function Then(p: Perm, q: Perm, n: nat): (r: Perm)
    requires p.Valid(n) && q.Valid(n)
    ensures r.Valid(n)
  {
    Perm(seq(n, x requires 0 <= x < n => q.to[p.to[x]]), seq(n, i requires 0 <= i < n => p.from[q.from[i]]))
  }

  ghost function Exchange(n: nat, i: nat, j: nat): (p: Perm)
    requires i < n && j < n
    ensures p.Valid(n)
  {
    var s := seq(n, x => if x == i then j else if x == j then i else x);
    Perm(s, s)
  }

  /** now is before rearranged by p. */
  ghost predicate Moved<T>(before: seq<T>, now: seq<T>, p: Perm) {
    |now| == |before| && p.Valid(|before|) && forall x | 0 <= x < |before| :: now[p.to[x]] == before[x]
  }

  lemma MovedTwice<T>(s0: seq<T>, s1: seq<T>, s2: seq<T>, p: Perm, q: Perm)
    requires Moved(s0, s1, p) && Moved(s1, s2, q)
    ensures Moved(s0, s2, Then(p, q, |s0|))
  {
  }

  /** One more exchange of two elements. */
  lemma ExchangeMoves<T>(before: seq<T>, now: seq<T>, p: Perm, i: nat, j: nat)
    requires Moved(before, now, p) && i < |now| && j < |now|
    ensures Moved(before, now[i := now[j]][j := now[i]], Then(p, Exchange(|now|, i, j), |now|))
  {
    MovedTwice(before, now, now[i := now[j]][j := now[i]], p, Exchange(|now|, i, j));
  }

  lemma MovedIsPermutation<T>(before: seq<T>, now: seq<T>, p: Perm)
    requires Moved(before, now, p)
    ensures p.Valid(|before|)
  {
  }

  lemma NothingMoved<T>(s: seq<T>)
    ensures Moved(s, s, Identity(|s|))
  {
  }

  // ------------------------------------------------------------------- greedy suppression

  function SetProb(d: Detection, k: nat, v: real): Detection
    requires k < |d.prob|
  {
    d.(prob := d.prob[k := v])
  }

  /** Every detection that a suppresses loses its score of class k. */
  function SuppressBy(rule: Rule, k: nat, a: Box, s: seq<Detection>): (r: seq<Detection>)
    requires forall d | d in s :: k < |d.prob|
    ensures |r| == |s|
    ensures forall i | 0 <= i < |s| :: r[i] == if Suppresses(rule, a, s[i].bbox) then SetProb(s[i], k, 0.0) else s[i]
  {
    seq(|s|, i requires 0 <= i < |s| => if Suppresses(rule, a, s[i].bbox) then SetProb(s[i], k, 0.0) else s[i])
  }

  /** Recursive greedy suppression: the first detection with a score is kept and removes others. */
  function Greedy(rule: Rule, k: nat, s: seq<Detection>): (r: seq<Detection>)
    requires forall d | d in s :: k < |d.prob|
    ensures |r| == |s|
    decreases |s|
  {
    if s == [] then []
    else [s[0]] + Greedy(rule, k, Leave(rule, k, s))
  }

  /** What the first detection of s leaves of the others. */
  function Leave(rule: Rule, k: nat, s: seq<Detection>): (r: seq<Detection>)
    requires s != [] && forall d | d in s :: k < |d.prob|
    ensures |r| == |s| - 1
    ensures forall d | d in r :: k < |d.prob|
    ensures forall i | 0 <= i < |r| :: r[i] == if s[0].prob[k] != 0.0 && Suppresses(rule, s[0].bbox, s[i + 1].bbox)
                                               then SetProb(s[i + 1], k, 0.0) else s[i + 1]
  {
    if s[0].prob[k] == 0.0 then s[1..] else SuppressBy(rule, k, s[0].bbox, s[1..])
  }

  /** Equal but for the score of class k. */
  predicate SameExcept(a: Detection, b: Detection, k: nat) {
    && a.bbox == b.bbox && a.objectness == b.objectness && |a.prob| == |b.prob|
    && forall c | 0 <= c < |a.prob| && c != k :: a.prob[c] == b.prob[c]
  }

  /**
   What suppression owes, class by class: scores are kept or zeroed, no two kept boxes
   suppress each other, and every zeroed one is suppressed by a kept one scored at least
   as high.
   */
  ghost predicate Suppressed(rule: Rule, boxes: seq<Box>, scores: seq<real>, out: seq<real>) {
    && |boxes| == |scores| == |out|
    && (forall x | 0 <= x < |out| :: out[x] == scores[x] || out[x] == 0.0)
    && (forall x, y | 0 <= x < |out| && 0 <= y < |out| && x != y && out[x] != 0.0 && out[y] != 0.0 ::
          !Suppresses(rule, boxes[x], boxes[y]))
    && (forall x | 0 <= x < |out| && out[x] == 0.0 && scores[x] != 0.0 :: Covered(rule, boxes, out, boxes[x], scores[x]))
  }

  ghost predicate Covered(rule: Rule, boxes: seq<Box>, out: seq<real>, box: Box, score: real)
    requires |boxes| == |out|
  {
    exists y :: 0 <= y < |out| && out[y] != 0.0 && out[y] >= score && Suppresses(rule, boxes[y], box)
  }

  function Boxes(s: seq<Detection>): (r: seq<Box>)
    ensures |r| == |s| && forall i | 0 <= i < |s| :: r[i] == s[i].bbox
  {
    seq(|s|, i requires 0 <= i < |s| => s[i].bbox)
  }

  function Scores(s: seq<Detection>, k: nat): (r: seq<real>)
    requires forall d | d in s :: k < |d.prob|
    ensures |r| == |s| && forall i | 0 <= i < |s| :: r[i] == s[i].prob[k]
  {
    seq(|s|, i requires 0 <= i < |s| => s[i].prob[k])
  }

  /** Descending scores of class k, zeros anywhere. */
  predicate Descending(s: seq<Detection>, k: nat)
    requires forall d | d in s :: k < |d.prob|
  {
    forall i, j | 0 <= i < j < |s| && s[i].prob[k] != 0.0 && s[j].prob[k] != 0.0 :: s[i].prob[k] >= s[j].prob[k]
  }

  lemma {:induction false} GreedyKeepsRest(rule: Rule, k: nat, s: seq<Detection>)
    requires forall d | d in s :: k < |d.prob|
    ensures forall i | 0 <= i < |s| :: SameExcept(s[i], Greedy(rule, k, s)[i], k)
    decreases |s|
  {
    hide Suppresses, Leave, SameExcept;
    if s != [] {
      var next := Leave(rule, k, s);
      GreedyKeepsRest(rule, k, next);
      forall i | 0 <= i < |s|
        ensures SameExcept(s[i], Greedy(rule, k, s)[i], k)
      {
        if i == 0 {
          SameAsItself(s[0], k);
        } else {
          LeaveKeepsRest(rule, k, s, i - 1);
          SameTwice(s[i], next[i - 1], Greedy(rule, k, next)[i - 1], k);
        }
      }
    }
  }

  lemma SameAsItself(d: Detection, k: nat)
    ensures SameExcept(d, d, k)
  {
  }

  lemma SameTwice(a: Detection, b: Detection, c: Detection, k: nat)
    requires SameExcept(a, b, k) && SameExcept(b, c, k)
    ensures SameExcept(a, c, k)
  {
  }

  lemma LeaveKeepsRest(rule: Rule, k: nat, s: seq<Detection>, i: nat)
    requires s != [] && (forall d | d in s :: k < |d.prob|) && i < |s| - 1
    ensures SameExcept(s[i + 1], Leave(rule, k, s)[i], k)
  {
    hide Suppresses, Leave;
  }

  lemma {:induction false} GreedySuppresses(rule: Rule, k: nat, s: seq<Detection>)
    requires (forall d | d in s :: k < |d.prob|) && Descending(s, k)
    ensures forall d | d in Greedy(rule, k, s) :: k < |d.prob|
    ensures Suppressed(rule, Boxes(s), Scores(s, k), Scores(Greedy(rule, k, s), k))
    decreases |s|
  {
    hide Suppresses, Suppressed, SameExcept, Leave, Boxes, Scores;
    if s == [] {
      NothingToSuppress(rule);
      assert Boxes(s) == [] && Scores(s, k) == [];
    } else {
      var tail, next := s[1..], Leave(rule, k, s);
      LeaveDescends(rule, k, s);
      GreedySuppresses(rule, k, next);
      hide Descending;
      KeepFirst(rule, s[0].bbox, s[0].prob[k], Boxes(tail), Scores(tail, k),
                Scores(next, k), Scores(Greedy(rule, k, next), k));
      SplitFirst(s[0], tail, k);
      SplitFirst(s[0], Greedy(rule, k, next), k);
      assert s == [s[0]] + tail;
    }
  }

  lemma SplitFirst(d: Detection, tail: seq<Detection>, k: nat)
    requires k < |d.prob| && forall e | e in tail :: k < |e.prob|
    ensures forall e | e in [d] + tail :: k < |e.prob|
    ensures Boxes([d] + tail) == [d.bbox] + Boxes(tail)
    ensures Scores([d] + tail, k) == [d.prob[k]] + Scores(tail, k)
  {
  }

  lemma LeaveDescends(rule: Rule, k: nat, s: seq<Detection>)
    requires s != [] && (forall d | d in s :: k < |d.prob|) && Descending(s, k)
    ensures Descending(Leave(rule, k, s), k) && Descending(s[1..], k)
    ensures Boxes(Leave(rule, k, s)) == Boxes(s[1..])
    ensures forall i | 0 <= i < |s| - 1 :: Leave(rule, k, s)[i].prob[k]
              == if s[0].prob[k] != 0.0 && Suppresses(rule, s[0].bbox, s[i + 1].bbox) then 0.0 else s[i + 1].prob[k]
  {
    hide Suppresses, Leave;
  }

  lemma NothingToSuppress(rule: Rule)
    ensures Suppressed(rule, [], [], [])
  {
  }

  /** Keeping the first box on top of a settled suppression of what it leaves. */
  lemma KeepFirst(rule: Rule, box: Box, score: real, boxes: seq<Box>, scores: seq<real>, left: seq<real>, out: seq<real>)
    requires |boxes| == |scores| == |left| && Suppressed(rule, boxes, left, out)
    requires forall x | 0 <= x < |left| ::
               left[x] == if score != 0.0 && Suppresses(rule, box, boxes[x]) then 0.0 else scores[x]
    requires forall x | 0 <= x < |scores| && score != 0.0 && scores[x] != 0.0 :: score >= scores[x]
    ensures Suppressed(rule, [box] + boxes, [score] + scores, [score] + out)
  {
    hide Suppresses;
    var boxes', scores', out' := [box] + boxes, [score] + scores, [score] + out;
    forall x, y | 0 <= x < |out'| && 0 <= y < |out'| && x != y && out'[x] != 0.0 && out'[y] != 0.0
      ensures !Suppresses(rule, boxes'[x], boxes'[y])
    {
      SuppressesSymmetric(rule, boxes'[x], boxes'[y]);
    }
    forall x | 0 <= x < |out'| && out'[x] == 0.0 && scores'[x] != 0.0
      ensures Covered(rule, boxes', out', boxes'[x], scores'[x])
    {
      if left[x - 1] == 0.0 {
        assert out'[0] >= scores'[x] && Suppresses(rule, boxes'[0], boxes'[x]);
      } else {
        var y :| 0 <= y < |out| && out[y] != 0.0 && out[y] >= left[x - 1] && Suppresses(rule, boxes[y], boxes[x - 1]);
        assert out'[y + 1] == out[y] && boxes'[y + 1] == boxes[y];
      }
    }
  }

  /** With distinct scores the result is determined: suppression has one outcome. */
  lemma SuppressionIsUnique(rule: Rule, boxes: seq<Box>, scores: seq<real>, out: seq<real>, out': seq<real>)
    requires Suppressed(rule, boxes, scores, out) && Suppressed(rule, boxes, scores, out')
    requires forall x, y | 0 <= x < y < |scores| && scores[x] != 0.0 :: scores[x] != scores[y]
    ensures out == out'
  {
    hide Suppresses;
    if out != out' {
      var x := BestDifference(scores, out, out');
      if out[x] != 0.0 {
        KeptByBoth(rule, boxes, scores, out, out', x);
      } else {
        KeptByBoth(rule, boxes, scores, out', out, x);
      }
    }
  }

  lemma BestDifference(scores: seq<real>, out: seq<real>, out': seq<real>) returns (x: nat)
    requires |scores| == |out| == |out'| && out != out'
    ensures x < |out| && out[x] != out'[x]
    ensures forall y | 0 <= y < |out| && out[y] != out'[y] :: scores[y] <= scores[x]
  {
    x :| 0 <= x < |out| && out[x] != out'[x];
    for i := 0 to |out|
      invariant x < |out| && out[x] != out'[x]
      invariant forall y | 0 <= y < i && out[y] != out'[y] :: scores[y] <= scores[x]
    {
      if out[i] != out'[i] && scores[i] > scores[x] {
        x := i;
      }
    }
  }

  /** A box kept by one outcome and zeroed by the other has a better-scored disagreement. */
  lemma KeptByBoth(rule: Rule, boxes: seq<Box>, scores: seq<real>, out: seq<real>, out': seq<real>, x: nat)
    requires Suppressed(rule, boxes, scores, out) && Suppressed(rule, boxes, scores, out')
    requires forall x, y | 0 <= x < y < |scores| && scores[x] != 0.0 :: scores[x] != scores[y]
    requires x < |out| && out[x] != 0.0 && out'[x] == 0.0
    ensures exists y :: 0 <= y < |out| && out[y] != out'[y] && scores[y] > scores[x]
  {
    hide Suppresses;
    assert Covered(rule, boxes, out', boxes[x], scores[x]);
    var y :| 0 <= y < |out'| && out'[y] != 0.0 && out'[y] >= scores[x] && Suppresses(rule, boxes[y], boxes[x]);
    assert y != x && out[y] == 0.0;
  }

  // ------------------------------------------------------------------------ class by class

  /** The score of class c of every original detection, wherever it now stands. */
  function ScoresAt(cur: seq<Detection>, p: Perm, c: nat): (r: seq<real>)
    requires |p.to| == |cur| && (forall x | 0 <= x < |cur| :: p.to[x] < |cur|) && forall d | d in cur :: c < |d.prob|
    ensures |r| == |cur| && forall x | 0 <= x < |cur| :: r[x] == cur[p.to[x]].prob[c]
  {
    seq(|cur|, x requires 0 <= x < |cur| => cur[p.to[x]].prob[c])
  }

  /** cur is start rearranged by p, with the classes below k suppressed and the others untouched. */
  ghost predicate SettledBelow(rule: Rule, classNum: nat, start: seq<Detection>, cur: seq<Detection>, p: Perm, k: nat) {
    && |cur| == |start| && p.Valid(|start|) && Shaped(start, classNum) && Shaped(cur, classNum) && k <= classNum
    && (forall x | 0 <= x < |start| ::
          cur[p.to[x]].bbox == start[x].bbox && cur[p.to[x]].objectness == start[x].objectness)
    && (forall x, c | 0 <= x < |start| && k <= c < classNum :: cur[p.to[x]].prob[c] == start[x].prob[c])
    && (forall c | 0 <= c < k :: Suppressed(rule, Boxes(start), Scores(start, c), ScoresAt(cur, p, c)))
  }

  lemma SettledAtStart(rule: Rule, classNum: nat, start: seq<Detection>)
    requires Shaped(start, classNum)
    ensures SettledBelow(rule, classNum, start, start, Identity(|start|), 0)
  {
  }

  lemma SettledAfterMove(rule: Rule, classNum: nat, start: seq<Detection>, cur: seq<Detection>, p: Perm, k: nat,
                         next: seq<Detection>, q: Perm)
    requires SettledBelow(rule, classNum, start, cur, p, k)
    requires |next| == |cur| && q.Valid(|cur|)
    requires forall i | 0 <= i < |cur| :: var d := next[q.to[i]];
               d.bbox == cur[i].bbox && d.objectness == cur[i].objectness && d.prob == cur[i].prob
    ensures SettledBelow(rule, classNum, start, next, Then(p, q, |start|), k)
  {
    hide Suppressed;
    var r := Then(p, q, |start|);
    assert Shaped(next, classNum) by {
      forall i | 0 <= i < |next| ensures |next[i].prob| == classNum { assert next[q.to[q.from[i]]] == next[i]; }
    }
    forall c | 0 <= c < k
      ensures ScoresAt(next, r, c) == ScoresAt(cur, p, c)
    {
    }
  }

  /** Suppression seen through a permutation is suppression. */
  lemma Transport(rule: Rule, boxes: seq<Box>, scores: seq<real>, out: seq<real>,
                  boxes': seq<Box>, scores': seq<real>, out': seq<real>, p: Perm)
    requires Suppressed(rule, boxes', scores', out') && p.Valid(|boxes'|)
    requires |boxes| == |scores| == |out| == |boxes'|
    requires forall x | 0 <= x < |boxes| ::
               boxes[x] == boxes'[p.to[x]] && scores[x] == scores'[p.to[x]] && out[x] == out'[p.to[x]]
    ensures Suppressed(rule, boxes, scores, out)
  {
    hide Suppresses;
    forall x | 0 <= x < |out| && out[x] == 0.0 && scores[x] != 0.0
      ensures Covered(rule, boxes, out, boxes[x], scores[x])
    {
      assert Covered(rule, boxes', out', boxes'[p.to[x]], scores'[p.to[x]]);
      var y :| 0 <= y < |out'| && out'[y] != 0.0 && out'[y] >= scores[x] && Suppresses(rule, boxes'[y], boxes[x]);
      assert p.to[p.from[y]] == y;
    }
  }

  lemma SettledAfterGreedy(rule: Rule, classNum: nat, start: seq<Detection>, cur: seq<Detection>, p: Perm, k: nat)
    requires k < classNum && SettledBelow(rule, classNum, start, cur, p, k) && Descending(cur, k)
    ensures SettledBelow(rule, classNum, start, Greedy(rule, k, cur), p, k + 1)
  {
    hide Suppressed, Suppresses, Greedy;
    var r := Greedy(rule, k, cur);
    GreedyKeepsRest(rule, k, cur);
    GreedySuppresses(rule, k, cur);
    Transport(rule, Boxes(start), Scores(start, k), ScoresAt(r, p, k), Boxes(cur), Scores(cur, k), Scores(r, k), p);
    forall c | 0 <= c < k
      ensures ScoresAt(r, p, c) == ScoresAt(cur, p, c)
    {
    }
  }

  // -------------------------------------------------------------------------- in place

  method Swap(dets: array<Detection>, i: nat, j: nat, ghost before: seq<Detection>, ghost p: Perm) returns (ghost p': Perm)
    requires i < dets.Length && j < dets.Length && Moved(before, dets[..], p)
    modifies dets
    ensures Moved(before, dets[..], p')
    ensures dets[..] == old(dets[..])[i := old(dets[j])][j := old(dets[i])]
  {
    ghost var now := dets[..];
    MovedIsPermutation(before, now, p);
    ExchangeMoves(before, now, p, i, j);
    hide Moved, Then, Exchange;
    p' := Then(p, Exchange(|now|, i, j), |now|);
    dets[i], dets[j] := dets[j], dets[i];
    assert dets[..] == now[i := now[j]][j := now[i]];
  }

  /** One turn of the partition loop. */
  method PartitionStep(dets: array<Detection>, i: nat, k: nat, ghost before: seq<Detection>, ghost p: Perm)
    returns (i': int, k': int, ghost p': Perm)
    requires Moved(before, dets[..], p) && Split(dets[..], i, k + 1) && i <= k < dets.Length
    modifies dets
    ensures Moved(before, dets[..], p') && 0 <= i' <= k' + 1 <= dets.Length && Split(dets[..], i', k' + 1)
    ensures k' - i' < k - i
  {
    hide Moved, Split;
    i', k', p' := i, k, p;
    SplitMore(dets[..], i, k + 1);
    if dets[i'].objectness == 0.0 {
      p' := Swap(dets, i', k', before, p);
      k' := k' - 1;
      i' := i' - 1;
    }
    i' := i' + 1;
  }

  /** Detections without objectness are moved behind the others. */
  method Partition(dets: array<Detection>) returns (total: nat, ghost p: Perm)
    modifies dets
    ensures total <= dets.Length && Moved(old(dets[..]), dets[..], p)
    ensures forall i | 0 <= i < total :: dets[i].objectness != 0.0
    ensures forall i | total <= i < dets.Length :: dets[i].objectness == 0.0
  {
    ghost var before := dets[..];
    var k, i := dets.Length - 1, 0;
    p := Identity(dets.Length);
    NothingMoved(before);
    hide Moved, Then, Exchange, Split;
    NothingSplit(before);
    while i <= k
      invariant 0 <= i <= k + 1 <= dets.Length
      invariant Moved(before, dets[..], p) && Split(dets[..], i, k + 1)
      decreases k - i
    {
      i, k, p := PartitionStep(dets, i, k, before, p);
    }
    total := k + 1;
    SplitAll(dets[..], total);
  }

  /** Objectness before lo, none from hi on. */
  predicate Split(s: seq<Detection>, lo: nat, hi: nat) {
    && lo <= hi <= |s|
    && (forall i | 0 <= i < lo :: s[i].objectness != 0.0)
    && (forall i | hi <= i < |s| :: s[i].objectness == 0.0)
  }

  lemma NothingSplit(s: seq<Detection>)
    ensures Split(s, 0, |s|)
  {
  }

  /** One more detection on its side. */
  lemma SplitMore(s: seq<Detection>, lo: nat, hi: nat)
    requires Split(s, lo, hi) && lo < hi
    ensures lo < hi <= |s|
    ensures if s[lo].objectness != 0.0 then Split(s, lo + 1, hi)
            else Split(s[lo := s[hi - 1]][hi - 1 := s[lo]], lo, hi - 1)
  {
  }

  lemma SplitAll(s: seq<Detection>, total: nat)
    requires Split(s, total, total)
    ensures total <= |s|
    ensures forall i | 0 <= i < total :: s[i].objectness != 0.0
    ensures forall i | total <= i < |s| :: s[i].objectness == 0.0
  {
  }

  /** Detections that may be compared for class k. */
  predicate Comparable(s: seq<Detection>, classNum: nat, k: nat) {
    k < classNum && Shaped(s, classNum) && forall d | d in s :: d.sortClass == k
  }

  predicate Ordered(s: seq<Detection>, classNum: nat, k: nat)
    requires Comparable(s, classNum, k)
  {
    forall i, j | 0 <= i < j < |s| :: Compare(s[i], s[j]) <= 0
  }

  /** A descending arrangement, as the C library's sort promises one. */
  method Sort(s: seq<Detection>, ghost classNum: nat, ghost k: nat) returns (r: seq<Detection>, ghost p: Perm)
    requires Comparable(s, classNum, k)
    ensures Moved(s, r, p) && Comparable(r, classNum, k) && Ordered(r, classNum, k)
  {
    r, p := s, Identity(|s|);
    NothingMoved(s);
    hide Moved, Then, Exchange;
    for i := 0 to |s|
      invariant |r| == |s| && Moved(s, r, p) && Comparable(r, classNum, k)
      invariant forall j, j' | 0 <= j < j' < |s| && j < i :: Compare(r[j], r[j']) <= 0
    {
      var best := i;
      for j := i + 1 to |s|
        invariant i <= best < |s|
        invariant forall j' | i <= j' < j :: Compare(r[best], r[j']) <= 0
      {
        if Compare(r[j], r[best]) < 0 {
          best := j;
        }
      }
      assert p.Valid(|s|) by { MovedIsPermutation(s, r, p); }
      ExchangeMoves(s, r, p, i, best);
      r := r[i := r[best]][best := r[i]];
      p := Then(p, Exchange(|s|, i, best), |s|);
    }
  }

  /** qsort of the first total detections. */
  method Qsort(dets: array<Detection>, total: nat, ghost classNum: nat, ghost k: nat) returns (ghost p: Perm)
    requires total <= dets.Length && Comparable(dets[..total], classNum, k)
    modifies dets
    ensures Moved(old(dets[..total]), dets[..total], p)
    ensures Comparable(dets[..total], classNum, k) && Ordered(dets[..total], classNum, k)
    ensures dets[total..] == old(dets[total..])
  {
    var r: seq<Detection>;
    r, p := Sort(dets[..total], classNum, k);
    forall i | 0 <= i < total {
      dets[i] := r[i];
    }
    assert dets[..total] == r;
  }

  /** The inner loop: detection i removes later ones. */
  method SuppressLater(dets: array<Detection>, i: nat, total: nat, rule: Rule, k: nat)
    requires i < total <= dets.Length && forall j | 0 <= j < total :: k < |dets[j].prob|
    modifies dets
    ensures dets[..i + 1] == old(dets[..i + 1]) && dets[total..] == old(dets[total..])
    ensures forall d | d in old(dets[i + 1..total]) :: k < |d.prob|
    ensures dets[i + 1..total] == SuppressBy(rule, k, old(dets[i].bbox), old(dets[i + 1..total]))
  {
    var a := dets[i].bbox;
    var j := i + 1;
    while j < total
      invariant i + 1 <= j <= total
      invariant forall x | 0 <= x < dets.Length ::
                  dets[x] == if i < x < j && Suppresses(rule, a, old(dets[x].bbox)) then SetProb(old(dets[x]), k, 0.0)
                             else old(dets[x])
    {
      var b := dets[j].bbox;
      if Suppresses(rule, a, b) {
        dets[j] := SetProb(dets[j], k, 0.0);
      }
      j := j + 1;
    }
  }

  /** One turn of the outer loop: a detection with a score removes later ones. */
  method SuppressFrom(dets: array<Detection>, i: nat, total: nat, rule: Rule, k: nat)
    requires i < total <= dets.Length && forall d | d in dets[i..total] :: k < |d.prob|
    requires forall j | 0 <= j < total :: k < |dets[j].prob|
    modifies dets
    ensures dets[..i + 1] == old(dets[..i + 1]) && dets[total..] == old(dets[total..])
    ensures dets[i + 1..total] == Leave(rule, k, old(dets[i..total]))
  {
    hide Suppresses;
    ghost var rest := dets[i..total];
    if dets[i].prob[k] != 0.0 {
      SuppressLater(dets, i, total, rule, k);
      assert rest[1..] == old(dets[i + 1..total]);
    }
    assert dets[i + 1..total] == Leave(rule, k, rest);
  }

  lemma GreedyUnfolds(rule: Rule, k: nat, done: seq<Detection>, rest: seq<Detection>)
    requires rest != [] && forall d | d in rest :: k < |d.prob|
    ensures done + Greedy(rule, k, rest) == (done + [rest[0]]) + Greedy(rule, k, Leave(rule, k, rest))
  {
    hide Suppresses, Leave;
  }

  lemma NothingLeft(rule: Rule, k: nat)
    ensures Greedy(rule, k, []) == []
  {
  }

  /** The double loop of one class over the first total detections. */
  method SuppressClass(dets: array<Detection>, total: nat, rule: Rule, k: nat)
    requires total <= dets.Length && forall d | d in dets[..total] :: k < |d.prob|
    modifies dets
    ensures dets[..total] == Greedy(rule, k, old(dets[..total]))
    ensures dets[total..] == old(dets[total..])
  {
    hide Suppresses, Greedy, Leave;
    ghost var before := dets[..total];
    var i := 0;
    while i < total
      invariant 0 <= i <= total
      invariant forall j | 0 <= j < total :: k < |dets[j].prob|
      invariant dets[..i] + Greedy(rule, k, dets[i..total]) == Greedy(rule, k, before)
      invariant dets[total..] == old(dets[total..])
    {
      ghost var done, rest := dets[..i], dets[i..total];
      GreedyUnfolds(rule, k, done, rest);
      assert done + [rest[0]] == dets[..i + 1];
      SuppressFrom(dets, i, total, rule, k);
      i := i + 1;
    }
    NothingLeft(rule, k);
  }

  lemma OrderedDescends(s: seq<Detection>, classNum: nat, k: nat)
    requires Comparable(s, classNum, k) && Ordered(s, classNum, k)
    ensures Descending(s, k)
  {
    forall i, j | 0 <= i < j < |s|
      ensures s[i].prob[k] >= s[j].prob[k]
    {
      assert Compare(s[i], s[j]) <= 0;
    }
  }

  /** for (i...) dets[i].sort_class = k; */
  method SetSortClass(dets: array<Detection>, total: nat, k: nat)
    requires total <= dets.Length
    modifies dets
    ensures forall i | 0 <= i < total :: dets[i] == old(dets[i]).(sortClass := k)
    ensures dets[total..] == old(dets[total..])
  {
    var i := 0;
    while i < total
      invariant 0 <= i <= total
      invariant forall x | 0 <= x < dets.Length ::
                  dets[x] == if x < i then old(dets[x]).(sortClass := k) else old(dets[x])
    {
      dets[i] := dets[i].(sortClass := k);
      i := i + 1;
    }
  }

  function Marked(s: seq<Detection>, k: nat): (r: seq<Detection>)
    ensures |r| == |s| && forall i | 0 <= i < |s| :: r[i] == s[i].(sortClass := k)
  {
    seq(|s|, i requires 0 <= i < |s| => s[i].(sortClass := k))
  }

  /**
   cur comes from start by one greedy suppression per class, each on a descending arrangement
   of what the class before left; trace holds these arrangements.
   */
  ghost predicate Folds(rule: Rule, classNum: nat, start: seq<Detection>, trace: seq<seq<Detection>>, cur: seq<Detection>)
    decreases |trace|
  {
    if trace == [] then cur == start
    else
      var k := |trace| - 1;
      && Comparable(trace[k], classNum, k) && Ordered(trace[k], classNum, k)
      && cur == Greedy(rule, k, trace[k])
      && exists before, p :: Folds(rule, classNum, start, trace[..k], before) && Moved(Marked(before, k), trace[k], p)
  }

  lemma FoldsOneMore(rule: Rule, classNum: nat, start: seq<Detection>, trace: seq<seq<Detection>>,
                     before: seq<Detection>, sorted: seq<Detection>, p: Perm)
    requires Folds(rule, classNum, start, trace, before) && Moved(Marked(before, |trace|), sorted, p)
    requires Comparable(sorted, classNum, |trace|) && Ordered(sorted, classNum, |trace|)
    ensures Folds(rule, classNum, start, trace + [sorted], Greedy(rule, |trace|, sorted))
  {
    hide Moved, Greedy, Ordered;
    assert (trace + [sorted])[..|trace|] == trace;
  }

  /** The body of the loop over the classes: mark, sort, suppress. */
  method SettleClass(dets: array<Detection>, total: nat, classNum: nat, rule: Rule, k: nat,
                     ghost start: seq<Detection>, ghost p: Perm, ghost trace: seq<seq<Detection>>)
    returns (ghost p': Perm, ghost trace': seq<seq<Detection>>)
    requires total <= dets.Length && k < classNum && k == |trace|
    requires SettledBelow(rule, classNum, start, dets[..total], p, k)
    requires Folds(rule, classNum, start, trace, dets[..total])
    modifies dets
    ensures SettledBelow(rule, classNum, start, dets[..total], p', k + 1)
    ensures Folds(rule, classNum, start, trace', dets[..total]) && |trace'| == k + 1
    ensures dets[total..] == old(dets[total..])
  {
    hide SettledBelow, Greedy, Descending, Folds;
    ghost var cur := dets[..total];
    SettledShape(rule, classNum, start, cur, p, k);
    SetSortClass(dets, total, k);
    ghost var marked := dets[..total];
    assert marked == Marked(cur, k);
    SettledAfterMove(rule, classNum, start, cur, p, k, marked, Identity(total));
    p' := Then(p, Identity(total), total);
    ghost var q := Qsort(dets, total, classNum, k);
    ghost var sorted := dets[..total];
    SettledAfterMove(rule, classNum, start, marked, p', k, sorted, q);
    p' := Then(p', q, total);
    OrderedDescends(sorted, classNum, k);
    SuppressClass(dets, total, rule, k);
    SettledAfterGreedy(rule, classNum, start, sorted, p', k);
    FoldsOneMore(rule, classNum, start, trace, cur, sorted, q);
    trace' := trace + [sorted];
  }

  /** The loop over the classes. */
  method SuppressClasses(dets: array<Detection>, total: nat, classNum: nat, rule: Rule)
    returns (ghost p: Perm, ghost trace: seq<seq<Detection>>)
    requires total <= dets.Length && Shaped(dets[..total], classNum)
    modifies dets
    ensures SettledBelow(rule, classNum, old(dets[..total]), dets[..total], p, classNum)
    ensures Folds(rule, classNum, old(dets[..total]), trace, dets[..total]) && |trace| == classNum
    ensures dets[total..] == old(dets[total..])
  {
    ghost var start := dets[..total];
    p, trace := Identity(total), [];
    SettledAtStart(rule, classNum, start);
    assert Folds(rule, classNum, start, [], start);
    hide SettledBelow, Folds;
    for k := 0 to classNum
      invariant SettledBelow(rule, classNum, start, dets[..total], p, k)
      invariant Folds(rule, classNum, start, trace, dets[..total]) && |trace| == k
      invariant dets[total..] == old(dets[total..])
    {
      p, trace := SettleClass(dets, total, classNum, rule, k, start, p, trace);
    }
  }

  lemma SettledShape(rule: Rule, classNum: nat, start: seq<Detection>, cur: seq<Detection>, p: Perm, k: nat)
    requires SettledBelow(rule, classNum, start, cur, p, k)
    ensures Shaped(cur, classNum) && p.Valid(|start|) && |cur| == |start|
  {
  }

  /**
   do_nms_sort and diounms_sort: the detections with objectness come first, and for every
   class what is left of their scores is a suppression of their original scores; all of it is
   the class-by-class fold of sorting and recursive greedy suppression.
   */
  method NmsSort(dets: array<Detection>, classNum: nat, rule: Rule)
    returns (total: nat, ghost kept: seq<Detection>, ghost p: Perm, ghost q: Perm, ghost trace: seq<seq<Detection>>)
    requires Shaped(dets[..], classNum)
    modifies dets
    ensures total <= dets.Length && |kept| == dets.Length
    ensures Moved(old(dets[..]), kept, p)
    ensures forall i | 0 <= i < dets.Length :: kept[i].objectness != 0.0 <==> i < total
    ensures SettledBelow(rule, classNum, kept[..total], dets[..total], q, classNum)
    ensures Folds(rule, classNum, kept[..total], trace, dets[..total]) && |trace| == classNum
    ensures dets[total..] == kept[total..]
  {
    ghost var before := dets[..];
    total, p := Partition(dets);
    kept := dets[..];
    assert Shaped(kept, classNum) by {
      forall i | 0 <= i < |kept| ensures kept[i] in before { assert kept[p.to[p.from[i]]] == before[p.from[i]]; }
    }
    assert kept[..total] == dets[..total];
    hide SettledBelow, Folds;
    q, trace := SuppressClasses(dets, total, classNum, rule);
  }

  // --------------------------------------------------------------------------- selection

  datatype Selected = Selected(det: Detection, bestClass: nat)

  /** b is the first class with the highest score above thresh, or -1 without such a class. */
  predicate IsBest(d: Detection, thresh: real, b: int) {
    if b == -1 then forall c | 0 <= c < |d.prob| :: d.prob[c] <= thresh
    else
      && 0 <= b < |d.prob| && d.prob[b] > thresh
      && (forall c | 0 <= c < |d.prob| :: d.prob[c] <= d.prob[b])
      && (forall c | 0 <= c < b :: d.prob[c] < d.prob[b])
  }

  method BestClass(d: Detection, thresh: real) returns (b: int)
    ensures IsBest(d, thresh, b)
  {
    b := -1;
    var bestProb := thresh;
    for j := 0 to |d.prob|
      invariant -1 <= b < j && bestProb == (if b == -1 then thresh else d.prob[b])
      invariant b == -1 ==> forall c | 0 <= c < j :: d.prob[c] <= thresh
      invariant b != -1 ==> d.prob[b] > thresh && (forall c | 0 <= c < j :: d.prob[c] <= d.prob[b])
                            && forall c | 0 <= c < b :: d.prob[c] < d.prob[b]
    {
      if d.prob[j] > bestProb {
        b := j;
        bestProb := d.prob[j];
      }
    }
  }

  /** picks are, in order, the detections with a class above thresh, each with its best class. */
  ghost predicate Picked(dets: seq<Detection>, thresh: real, picks: seq<Selected>) {
    if dets == [] then picks == []
    else
      var d := dets[|dets| - 1];
      if IsBest(d, thresh, -1) then Picked(dets[..|dets| - 1], thresh, picks)
      else
        && picks != []
        && picks[|picks| - 1].det == d
        && IsBest(d, thresh, picks[|picks| - 1].bestClass)
        && Picked(dets[..|dets| - 1], thresh, picks[..|picks| - 1])
  }

  method GetActualDetections(dets: seq<Detection>, thresh: real) returns (picks: seq<Selected>)
    ensures Picked(dets, thresh, picks)
  {
    picks := [];
    for i := 0 to |dets|
      invariant Picked(dets[..i], thresh, picks)
    {
      var bestClass := BestClass(dets[i], thresh);
      assert dets[..i + 1][..i] == dets[..i];
      if bestClass >= 0 {
        var pick := Selected(dets[i], bestClass);
        assert (picks + [pick])[..|picks|] == picks;
        picks := picks + [pick];
      }
    }
    assert dets[..|dets|] == dets;
  }

  /** The positions the picks were taken from, ascending. */
  lemma {:induction false} PickSources(dets: seq<Detection>, thresh: real, picks: seq<Selected>) returns (from: seq<nat>)
    requires Picked(dets, thresh, picks)
    ensures |from| == |picks|
    ensures forall u | 0 <= u < |from| ::
              from[u] < |dets| && dets[from[u]] == picks[u].det && IsBest(picks[u].det, thresh, picks[u].bestClass)
    ensures forall u, v | 0 <= u < v < |from| :: from[u] < from[v]
    decreases |dets|
  {
    if dets == [] {
      from := [];
    } else if IsBest(dets[|dets| - 1], thresh, -1) {
      from := PickSources(dets[..|dets| - 1], thresh, picks);
    } else {
      from := PickSources(dets[..|dets| - 1], thresh, picks[..|picks| - 1]);
      from := from + [|dets| - 1];
    }
  }

  /** Of the boxes finally reported, no two of one class suppress each other. */
  lemma ReportedBoxesDoNotOverlap(rule: Rule, classNum: nat, start: seq<Detection>, cur: seq<Detection>, q: Perm,
                                  thresh: real, picks: seq<Selected>, u: nat, v: nat)
    requires SettledBelow(rule, classNum, start, cur, q, classNum) && thresh >= 0.0
    requires Picked(cur, thresh, picks)
    requires u < v < |picks| && picks[u].bestClass == picks[v].bestClass
    ensures !Suppresses(rule, picks[u].det.bbox, picks[v].det.bbox)
  {
    hide Suppresses;
    var from := PickSources(cur, thresh, picks);
    var c, x, y := picks[u].bestClass, q.from[from[u]], q.from[from[v]];
    assert q.to[x] == from[u] && q.to[y] == from[v];
    assert Suppressed(rule, Boxes(start), Scores(start, c), ScoresAt(cur, q, c));
  }
}
