/** The detector that cuts the stream of camera frames into objects
    (cvcamera/src/cvcollector.cpp, the part of collect_data_thread that runs once per complete frame). */
module ObjectDetector {

  /** The radius measured in a frame is a float, so it may be no number; then both comparisons are false. */
  datatype Radius = NaN | Length(value: real)

  ghost predicate Small(r: Radius) { r.Length? && r.value < 135.0 }

  ghost predicate Large(r: Radius) { r.Length? && r.value >= 150.0 }

  ghost predicate Middle(r: Radius) { !Small(r) && !Large(r) }

  // ----- the specification: what the counters mean -----

  datatype Counts = Counts(obj: nat, empty: nat, non: nat)

  /** The 1-based position of the last large frame, 0 if there is none. */
  ghost function LastLarge(seg: seq<Radius>): (p: nat)
    ensures p <= |seg|
  {
    if seg == [] then 0
    else if Large(seg[|seg| - 1]) then |seg|
    else LastLarge(seg[..|seg| - 1])
  }

  ghost function Smalls(seg: seq<Radius>): nat {
    if seg == [] then 0 else Smalls(seg[..|seg| - 1]) + if Small(seg[|seg| - 1]) then 1 else 0
  }

  ghost function Middles(seg: seq<Radius>): nat {
    if seg == [] then 0 else Middles(seg[..|seg| - 1]) + if Middle(seg[|seg| - 1]) then 1 else 0
  }

  /** What the counters say of the frames since the last break. */
  ghost function Describe(seg: seq<Radius>): Counts {
    Counts(LastLarge(seg), Smalls(seg[LastLarge(seg)..]), Middles(seg[LastLarge(seg)..]))
  }

  /** The frame that completes an object: a small one, the eighth at least after a large frame that was at least the
      sixteenth. */
  ghost predicate Complete(seg: seq<Radius>) {
    seg != [] && Small(seg[|seg| - 1]) && Describe(seg).obj >= 16 && Describe(seg).empty >= 8
  }

  ghost predicate Pending(seg: seq<Radius>) {
    forall k :: 0 <= k <= |seg| ==> !Complete(seg[..k])
  }

  ghost predicate FirstComplete(seg: seq<Radius>) {
    Complete(seg) && forall k :: 0 <= k < |seg| ==> !Complete(seg[..k])
  }

  function Cut(cuts: seq<nat>, i: nat): nat
    requires i <= |cuts|
  {
    if i == 0 then 0 else cuts[i - 1]
  }

  ghost predicate Segment(radii: seq<Radius>, cuts: seq<nat>, i: nat)
    requires i < |cuts|
  {
    Cut(cuts, i) < Cut(cuts, i + 1) <= |radii| && FirstComplete(radii[Cut(cuts, i)..Cut(cuts, i + 1)])
  }

  /** `cuts` splits the stream into objects: each segment ends with the first frame that completes it, and the rest
      holds no complete object. */
  ghost predicate Split(radii: seq<Radius>, cuts: seq<nat>) {
    && (forall i :: 0 <= i < |cuts| ==> Segment(radii, cuts, i))
    && Cut(cuts, |cuts|) <= |radii|
    && Pending(radii[Cut(cuts, |cuts|)..])
  }

  // ----- the counters as functions of the frames -----

  ghost function Step(c: Counts, r: Radius): (Counts, bool) {
    if Small(r) then
      if c.obj >= 16 && c.empty + 1 >= 8 then (Counts(0, 0, 0), true) else (c.(empty := c.empty + 1), false)
    else if Large(r) then (Counts(c.obj + 1 + c.empty + c.non, 0, 0), false)
    else (c.(non := c.non + 1), false)
  }

  ghost function After(radii: seq<Radius>): Counts {
    if radii == [] then Counts(0, 0, 0) else Step(After(radii[..|radii| - 1]), radii[|radii| - 1]).0
  }

  /** The number of frames seen at each break. */
  ghost function Breaks(radii: seq<Radius>): seq<nat> {
    if radii == [] then []
    else
      Breaks(radii[..|radii| - 1])
      + if Step(After(radii[..|radii| - 1]), radii[|radii| - 1]).1 then [|radii|] else []
  }

  ghost function Tail(radii: seq<Radius>): seq<Radius> {
    if radii == [] then []
    else if Step(After(radii[..|radii| - 1]), radii[|radii| - 1]).1 then []
    else Tail(radii[..|radii| - 1]) + [radii[|radii| - 1]]
  }

  // ----- one frame more -----

  lemma {:induction false} CountsAddUp(seg: seq<Radius>)
    ensures Smalls(seg) + Middles(seg) <= |seg|
    ensures LastLarge(seg) == 0 ==> Smalls(seg) + Middles(seg) == |seg|
  {
    if seg != [] {
      CountsAddUp(seg[..|seg| - 1]);
    }
  }

  lemma {:induction false} NoLargeAfterLast(seg: seq<Radius>)
    ensures LastLarge(seg) > 0 ==> Large(seg[LastLarge(seg) - 1])
    ensures forall k :: LastLarge(seg) <= k < |seg| ==> !Large(seg[k])
  {
    if seg != [] && !Large(seg[|seg| - 1]) {
      NoLargeAfterLast(seg[..|seg| - 1]);
    }
  }

  lemma {:induction false} LastLargeIs(seg: seq<Radius>, p: nat)
    requires p <= |seg|
    requires p > 0 ==> Large(seg[p - 1])
    requires forall k :: p <= k < |seg| ==> !Large(seg[k])
    ensures LastLarge(seg) == p
  {
    if p < |seg| {
      LastLargeIs(seg[..|seg| - 1], p);
    }
  }

  lemma LastLargeSnoc(seg: seq<Radius>, r: Radius)
    ensures LastLarge(seg + [r]) == if Large(r) then |seg| + 1 else LastLarge(seg)
  {
    hide Large;
    assert (seg + [r])[..|seg|] == seg;
  }

  lemma SmallsSnoc(seg: seq<Radius>, r: Radius)
    ensures Smalls(seg + [r]) == Smalls(seg) + if Small(r) then 1 else 0
  {
    hide Small;
    assert (seg + [r])[..|seg|] == seg;
  }

  lemma MiddlesSnoc(seg: seq<Radius>, r: Radius)
    ensures Middles(seg + [r]) == Middles(seg) + if Middle(r) then 1 else 0
  {
    hide Middle;
    assert (seg + [r])[..|seg|] == seg;
  }

  lemma NoCounts()
    ensures Smalls([]) == 0 && Middles([]) == 0
  { }

  lemma DescribeSnoc(seg: seq<Radius>, r: Radius)
    ensures var d := Describe(seg);
            Describe(seg + [r]) == if Large(r) then Counts(|seg| + 1, 0, 0)
                                   else if Small(r) then d.(empty := d.empty + 1)
                                   else d.(non := d.non + 1)
  {
    hide LastLarge, Smalls, Middles;
    LastLargeSnoc(seg, r);
    if Large(r) {
      NoCounts();
      assert (seg + [r])[|seg| + 1..] == [];
    } else {
      var p := LastLarge(seg);
      assert (seg + [r])[p..] == seg[p..] + [r];
      SmallsSnoc(seg[p..], r);
      MiddlesSnoc(seg[p..], r);
    }
  }

  /** The three counters account for every frame since the last break. */
  lemma {:induction false} DescribeAddsUp(seg: seq<Radius>)
    ensures Describe(seg).obj + Describe(seg).empty + Describe(seg).non == |seg|
  {
    var p := LastLarge(seg);
    NoLargeAfterLast(seg);
    LastLargeIs(seg[p..], 0);
    CountsAddUp(seg[p..]);
  }

  lemma PendingSnoc(seg: seq<Radius>, r: Radius)
    requires Pending(seg)
    ensures Pending(seg + [r]) <==> !Complete(seg + [r])
    ensures FirstComplete(seg + [r]) <==> Complete(seg + [r])
  {
    hide Complete;
    var s := seg + [r];
    assert s[..|s|] == s;
    forall k | 0 <= k < |s| ensures !Complete(s[..k]) {
      assert s[..k] == seg[..k];
    }
  }

  /** While no object is complete the counters are below the limits, so a break always comes at the eighth small
      frame exactly. */
  lemma {:induction false} PendingIsBelow(seg: seq<Radius>)
    requires Pending(seg)
    ensures Describe(seg).obj < 16 || Describe(seg).empty < 8
  {
    if seg != [] {
      var front, r := seg[..|seg| - 1], seg[|seg| - 1];
      assert seg == front + [r];
      forall k | 0 <= k <= |front| ensures !Complete(front[..k]) {
        assert front[..k] == seg[..k];
      }
      PendingIsBelow(front);
      hide Describe;
      DescribeSnoc(front, r);
      assert seg[..|seg|] == seg;
    }
  }

  // ----- the counters refine the specification -----

  lemma EmptySegment()
    ensures Pending([])
    ensures Describe([]) == Counts(0, 0, 0)
  { }

  lemma TailSnoc(radii: seq<Radius>, r: Radius)
    requires After(radii) == Describe(Tail(radii)) && Pending(Tail(radii))
    ensures After(radii + [r]) == Describe(Tail(radii + [r])) && Pending(Tail(radii + [r]))
    ensures Step(After(radii), r).1 <==> FirstComplete(Tail(radii) + [r])
  {
    hide Describe, Pending, FirstComplete;
    var t := Tail(radii);
    assert (radii + [r])[..|radii|] == radii;
    DescribeSnoc(t, r);
    DescribeAddsUp(t);
    PendingSnoc(t, r);
    EmptySegment();
  }

  lemma OneMore(radii: seq<Radius>, r: Radius)
    ensures var s := Step(After(radii), r);
            && After(radii + [r]) == s.0
            && Breaks(radii + [r]) == Breaks(radii) + (if s.1 then [|radii| + 1] else [])
            && Tail(radii + [r]) == (if s.1 then [] else Tail(radii) + [r])
  {
    hide Step;
    assert (radii + [r])[..|radii|] == radii;
  }

  /** After any frames: the counters describe exactly the frames since the last break. */
  lemma {:induction false} CountersDescribeTail(radii: seq<Radius>)
    ensures After(radii) == Describe(Tail(radii))
    ensures Pending(Tail(radii))
    ensures After(radii).obj + After(radii).empty + After(radii).non == |Tail(radii)|
  {
    hide Describe, Pending;
    if radii == [] {
      EmptySegment();
    } else {
      CountersDescribeTail(radii[..|radii| - 1]);
      assert radii == radii[..|radii| - 1] + [radii[|radii| - 1]];
      TailSnoc(radii[..|radii| - 1], radii[|radii| - 1]);
    }
    DescribeAddsUp(Tail(radii));
  }

  lemma {:induction false} TailIsSuffix(radii: seq<Radius>)
    ensures var cuts := Breaks(radii);
            Cut(cuts, |cuts|) <= |radii| && Tail(radii) == radii[Cut(cuts, |cuts|)..]
  {
    hide Step, After;
    if radii != [] {
      TailIsSuffix(radii[..|radii| - 1]);
    }
  }

  lemma SegmentKept(front: seq<Radius>, r: Radius, before: seq<nat>, cuts: seq<nat>, i: nat)
    requires i < |before| && before <= cuts && Segment(front, before, i)
    ensures Segment(front + [r], cuts, i)
  {
    hide FirstComplete;
    var at, to := Cut(before, i), Cut(before, i + 1);
    assert at == Cut(cuts, i) && to == Cut(cuts, i + 1);
    assert (front + [r])[at..to] == front[at..to];
  }

  lemma LastSegment(front: seq<Radius>, r: Radius, before: seq<nat>)
    requires Cut(before, |before|) <= |front| && FirstComplete(front[Cut(before, |before|)..] + [r])
    ensures Segment(front + [r], before + [|front| + 1], |before|)
  {
    hide FirstComplete;
    var at := Cut(before, |before|);
    assert at == Cut(before + [|front| + 1], |before|);
    assert (front + [r])[at..|front| + 1] == front[at..] + [r];
  }

  /** The breaks the detector reports split the stream: every segment ends with the first frame that completes an
      object, and the frames after the last break hold no complete object. */
  lemma {:induction false} BreaksSplit(radii: seq<Radius>)
    ensures Split(radii, Breaks(radii))
  {
    hide Pending, FirstComplete, Tail, After, Step, Describe, Segment;
    TailIsSuffix(radii);
    CountersDescribeTail(radii);
    if radii != [] {
      var front, r := radii[..|radii| - 1], radii[|radii| - 1];
      var before := Breaks(front);
      BreaksSplit(front);
      CountersDescribeTail(front);
      TailIsSuffix(front);
      assert radii == front + [r];
      TailSnoc(front, r);
      forall i | 0 <= i < |before| ensures Segment(radii, Breaks(radii), i) {
        SegmentKept(front, r, before, Breaks(radii), i);
      }
      if Step(After(front), r).1 {
        LastSegment(front, r, before);
      }
    }
  }

  /** There is only one way to split a stream, so the breaks are determined by the meaning of a complete object. */
  lemma {:induction false} SplitIsUnique(radii: seq<Radius>, a: seq<nat>, b: seq<nat>)
    requires Split(radii, a) && Split(radii, b)
    ensures a == b
  {
    hide Complete;
    SplitsAgree(radii, a, b, |a|);
    SplitsAgree(radii, b, a, |b|);
  }

  lemma PendingPrefix(radii: seq<Radius>, from: nat, to: nat)
    requires from <= to <= |radii| && Pending(radii[from..])
    ensures !Complete(radii[from..to])
  {
    hide Complete;
    assert radii[from..][..to - from] == radii[from..to];
  }

  lemma FirstPrefix(radii: seq<Radius>, from: nat, to: nat, end: nat)
    requires from <= to < end <= |radii| && FirstComplete(radii[from..end])
    ensures !Complete(radii[from..to])
  {
    hide Complete;
    assert radii[from..end][..to - from] == radii[from..to];
  }

  /** One split is never ahead of another. */
  lemma {:induction false} SplitsAgree(radii: seq<Radius>, a: seq<nat>, b: seq<nat>, n: nat)
    requires Split(radii, a) && Split(radii, b) && n <= |a|
    ensures n <= |b| && a[..n] == b[..n]
  {
    hide Complete;
    if n > 0 {
      SplitsAgree(radii, a, b, n - 1);
      assert a[..n - 1][..n - 1] == a[..n - 1];
      assert forall k :: 0 <= k < n - 1 ==> a[k] == a[..n - 1][k] == b[..n - 1][k] == b[k];
      assert Segment(radii, a, n - 1);
      var at := Cut(a, n - 1);
      assert at == Cut(b, n - 1);
      assert Complete(radii[at..a[n - 1]]);
      if |b| == n - 1 {
        PendingPrefix(radii, at, a[n - 1]);
        assert false;
      }
      assert Segment(radii, b, n - 1);
      if a[n - 1] < b[n - 1] {
        FirstPrefix(radii, at, a[n - 1], b[n - 1]);
        assert false;
      } else if b[n - 1] < a[n - 1] {
        FirstPrefix(radii, at, b[n - 1], a[n - 1]);
        assert false;
      }
    }
  }

  /** Every object is at least 24 frames long, sixteen up to its last large frame and exactly eight small ones after
      it. */
  lemma BreaksAreApart(radii: seq<Radius>, i: nat)
    requires i < |Breaks(radii)|
    ensures var cuts := Breaks(radii);
            && Cut(cuts, i) + 24 <= Cut(cuts, i + 1) <= |radii|
            && Describe(radii[Cut(cuts, i)..Cut(cuts, i + 1)]).empty == 8
  {
    BreaksSplit(radii);
    var cuts := Breaks(radii);
    assert Segment(radii, cuts, i);
    var seg := radii[Cut(cuts, i)..Cut(cuts, i + 1)];
    var front, r := seg[..|seg| - 1], seg[|seg| - 1];
    forall k | 0 <= k <= |front| ensures !Complete(front[..k]) {
      assert front[..k] == seg[..k];
    }
    PendingIsBelow(front);
    DescribeAddsUp(seg);
    DescribeSnoc(front, r);
    assert seg == front + [r];
  }

  // ----- which streams hold an object at all -----

  /** A large frame, the sixteenth at least, and then eight small frames before the next large one. */
  ghost predicate ObjectEndsAt(radii: seq<Radius>, p: nat, q: nat) {
    && 16 <= p < q <= |radii|
    && Large(radii[p - 1])
    && (forall k :: p <= k < q ==> !Large(radii[k]))
    && Smalls(radii[p..q]) >= 8
  }

  /** Some break is reported if and only if the stream holds such a frame. Only one large frame is needed: the fifteen
      frames in front of it may be anything. */
  lemma BreakIff(radii: seq<Radius>)
    ensures Breaks(radii) != [] <==> exists p: nat, q: nat :: ObjectEndsAt(radii, p, q)
  {
    hide Breaks;
    BreaksSplit(radii);
    var cuts := Breaks(radii);
    if cuts != [] {
      assert Segment(radii, cuts, 0);
      var seg := radii[0..cuts[0]];
      NoLargeAfterLast(seg);
      var p, q := LastLarge(seg), |seg|;
      assert radii[p..q] == seg[p..];
      assert ObjectEndsAt(radii, p, q);
    } else {
      assert radii[0..] == radii;
      if p: nat, q: nat :| ObjectEndsAt(radii, p, q) {
        NotPending(radii, p, q);
        assert false;
      }
    }
  }

  lemma {:induction false} LastSmall(radii: seq<Radius>, p: nat, q: nat) returns (q': nat)
    requires p <= q <= |radii| && Smalls(radii[p..q]) >= 8
    ensures p < q' <= q && Smalls(radii[p..q']) >= 8 && Small(radii[q' - 1])
  {
    assert radii[p..q] == radii[p..q - 1] + [radii[q - 1]];
    assert radii[p..q][..q - p - 1] == radii[p..q - 1];
    if Small(radii[q - 1]) {
      q' := q;
    } else {
      q' := LastSmall(radii, p, q - 1);
    }
  }

  lemma NotPending(radii: seq<Radius>, p: nat, q: nat)
    requires ObjectEndsAt(radii, p, q)
    ensures !Pending(radii)
  {
    var q' := LastSmall(radii, p, q);
    LastLargeIs(radii[..q'], p);
    assert radii[..q'][p..] == radii[p..q'];
    assert Complete(radii[..q']);
  }

  lemma {:induction false} SmallsOfSmall(seg: seq<Radius>)
    requires forall k :: 0 <= k < |seg| ==> Small(seg[k])
    ensures Smalls(seg) == |seg|
  {
    if seg != [] {
      SmallsOfSmall(seg[..|seg| - 1]);
    }
  }

  /** A single large frame after fifteen small ones is taken for an object of sixteen frames. */
  lemma OneLargeFrameIsEnough()
    ensures var small, large := Length(0.0), Length(150.0);
            Breaks(seq(15, _ => small) + [large] + seq(8, _ => small)) != []
  {
    hide Breaks;
    var small, large := Length(0.0), Length(150.0);
    var radii := seq(15, _ => small) + [large] + seq(8, _ => small);
    SmallsOfSmall(radii[16..24]);
    assert ObjectEndsAt(radii, 16, 24);
    BreakIff(radii);
  }

  lemma {:induction false} SmallsBound(seg: seq<Radius>)
    ensures Smalls(seg) <= |seg|
    ensures (forall k :: 0 <= k < |seg| ==> !Small(seg[k])) ==> Smalls(seg) == 0
  {
    if seg != [] {
      SmallsBound(seg[..|seg| - 1]);
    }
  }

  /** `n` frames without a radius, one frame `a`, then `m` frames `b`. */
  function Stream(n: nat, a: Radius, m: nat, b: Radius): (s: seq<Radius>)
    ensures |s| == n + 1 + m && s[n] == a
    ensures forall k :: 0 <= k < n ==> s[k] == NaN
    ensures forall k :: n < k < n + 1 + m ==> s[k] == b
  {
    seq(n, _ => NaN) + [a] + seq(m, _ => b)
  }

  /** Where all the limits lie: such a stream holds an object if and only if at least fifteen frames precede a radius of
      at least 150 and at least eight of less than 135 follow. A frame without a radius is neither. */
  lemma LimitsAre(n: nat, a: Radius, m: nat, b: Radius)
    ensures Breaks(Stream(n, a, m, b)) != []
       <==> n >= 15 && a.Length? && a.value >= 150.0 && m >= 8 && b.Length? && b.value < 135.0
  {
    hide Breaks, Stream;
    var radii := Stream(n, a, m, b);
    BreakIff(radii);
    if n >= 15 && a.Length? && a.value >= 150.0 && m >= 8 && b.Length? && b.value < 135.0 {
      SmallsOfSmall(radii[n + 1..]);
      assert radii[n + 1..n + 1 + m] == radii[n + 1..];
      assert ObjectEndsAt(radii, n + 1, n + 1 + m);
    }
    if p: nat, q: nat :| ObjectEndsAt(radii, p, q) {
      SmallsBound(radii[p..q]);
      assert forall k :: 0 <= k < q - p ==> radii[p..q][k] == radii[p + k];
      if p == n + 1 {
        assert radii[n + 1] == b;
      }
    }
  }

  // ----- the code -----

  class Detector {
    var framesObjCnt: nat
    var framesEmptyCnt: nat
    var framesNonCnt: nat
    var newObject: int
    ghost var seen: seq<Radius>

    ghost predicate Valid()
      reads this
    {
      Counts(framesObjCnt, framesEmptyCnt, framesNonCnt) == After(seen) && newObject == 0
    }

    constructor ()
      ensures Valid() && seen == []
    {
      framesObjCnt, framesEmptyCnt, framesNonCnt, newObject, seen := 0, 0, 0, 0, [];
    }

    /** One complete frame. `broke` is the length of the object that the log line reports when one is complete, 0
        otherwise. */
    method OnFrame(radius: Radius) returns (broke: nat)
      requires Valid()
      modifies this
      ensures Valid() && seen == old(seen) + [radius]
      ensures broke > 0 <==> Breaks(seen) == Breaks(old(seen)) + [|seen|]
      ensures broke == 0 <==> Breaks(seen) == Breaks(old(seen))
      ensures broke > 0 ==> broke == |seen| - Cut(Breaks(old(seen)), |Breaks(old(seen))|)
    {
      hide Describe, Pending, Tail, After, Breaks;
      broke := 0;
      ghost var before := seen;
      seen := seen + [radius];
      CountersDescribeTail(before);
      TailIsSuffix(before);
      OneMore(before, radius);
      if radius.Length? && radius.value < 135.0 && newObject == 0 {
        framesEmptyCnt := framesEmptyCnt + 1;
        if framesObjCnt >= 16 && framesEmptyCnt >= 8 {
          newObject := 1;
          broke := framesEmptyCnt + framesObjCnt + framesNonCnt;
          newObject := 0;
          framesObjCnt := 0;
          framesNonCnt := 0;
          framesEmptyCnt := 0;
        }
      } else if radius.Length? && radius.value >= 150.0 {
        framesObjCnt := framesObjCnt + 1;
        framesObjCnt := framesObjCnt + framesEmptyCnt;
        framesEmptyCnt := 0;
        framesObjCnt := framesObjCnt + framesNonCnt;
        framesNonCnt := 0;
      } else {
        framesNonCnt := framesNonCnt + 1;
      }
    }
  }

  /** The collector's loop over a stream of complete frames: the breaks it reports are the one split of the stream, and
      each report carries the length of its object. */
  method Collect(radii: seq<Radius>) returns (cuts: seq<nat>, lengths: seq<nat>)
    ensures cuts == Breaks(radii) && Split(radii, cuts)
    ensures |lengths| == |cuts| && forall i :: 0 <= i < |cuts| ==> lengths[i] == Cut(cuts, i + 1) - Cut(cuts, i)
  {
    hide Breaks, Split;
    cuts, lengths := [], [];
    var d := new Detector();
    assert Breaks([]) == [] by { NoFrames(); }
    for i := 0 to |radii|
      invariant d.Valid() && fresh(d) && d.seen == radii[..i]
      invariant cuts == Breaks(d.seen) && |lengths| == |cuts|
      invariant forall k :: 0 <= k < |cuts| ==> lengths[k] == Cut(cuts, k + 1) - Cut(cuts, k)
    {
      var broke := d.OnFrame(radii[i]);
      assert radii[..i + 1] == radii[..i] + [radii[i]];
      if broke > 0 {
        ghost var before := cuts;
        cuts, lengths := cuts + [i + 1], lengths + [broke];
        assert forall k :: 0 <= k <= |before| ==> Cut(cuts, k) == Cut(before, k);
      }
    }
    assert radii[..|radii|] == radii;
    BreaksSplit(radii);
  }

  lemma NoFrames()
    ensures Breaks([]) == []
  { }
}
