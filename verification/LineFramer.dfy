/** Splitting a connection's byte stream into lines (tcp/src/tcp_process.c, the read branch of the server loop). */
module LineFramer {
  import opened Basics

  const MAX_BUFFER_SIZE := 512

  // ----- the specification on values -----

  /** The unread part of the request buffer and the lines handed to the callbacks so far. */
  datatype Framer = Framer(buf: seq<char>, lines: seq<seq<char>>)

  /** The first newline at or after `i`, or the length if there is none. */
  function FindFrom(b: seq<char>, i: nat): (p: nat)
    requires i <= |b|
    ensures i <= p <= |b|
    ensures p < |b| ==> b[p] == '\n'
    ensures forall k :: i <= k < p ==> b[k] != '\n'
    decreases |b| - i
  {
    if i == |b| || b[i] == '\n' then i else FindFrom(b, i + 1)
  }

  function FirstNewline(b: seq<char>): (p: nat)
    ensures p <= |b|
    ensures p < |b| ==> b[p] == '\n'
    ensures forall k :: 0 <= k < p ==> b[k] != '\n'
  {
    FindFrom(b, 0)
  }

  /** One read of `chunk`: at most one line is taken out, however many are complete. */
  function Feed(f: Framer, chunk: seq<char>): Framer {
    var b := f.buf + chunk;
    var p := FirstNewline(b);
    if p < |b| then Framer(b[p + 1..], f.lines + [b[..p]]) else Framer(b, f.lines)
  }

  function FeedAll(chunks: seq<seq<char>>): Framer {
    if chunks == [] then Framer([], []) else Feed(FeedAll(chunks[..|chunks| - 1]), chunks[|chunks| - 1])
  }

  /** Reads are never empty (that closes the connection) and never longer than the room that is left. */
  ghost predicate Readable(chunks: seq<seq<char>>) {
    forall k :: 0 <= k < |chunks| ==> ReadableAt(chunks, k)
  }

  ghost predicate ReadableAt(chunks: seq<seq<char>>, k: nat)
    requires k < |chunks|
  {
    0 < |chunks[k]| <= MAX_BUFFER_SIZE - |FeedAll(chunks[..k]).buf|
  }

  function Flat(chunks: seq<seq<char>>): seq<char> {
    if chunks == [] then [] else Flat(chunks[..|chunks| - 1]) + chunks[|chunks| - 1]
  }

  /** Every line followed by its newline. */
  function Joined(lines: seq<seq<char>>): seq<char> {
    if lines == [] then [] else Joined(lines[..|lines| - 1]) + lines[|lines| - 1] + ['\n']
  }

  // ----- nothing is lost, nothing is invented -----

  lemma JoinedSnoc(lines: seq<seq<char>>, line: seq<char>)
    ensures Joined(lines + [line]) == Joined(lines) + line + ['\n']
  {
    assert (lines + [line])[..|lines|] == lines;
  }

  lemma FeedKeepsBytes(f: Framer, chunk: seq<char>)
    ensures Joined(Feed(f, chunk).lines) + Feed(f, chunk).buf == Joined(f.lines) + f.buf + chunk
  {
    hide FirstNewline, Joined;
    var b := f.buf + chunk;
    var p := FirstNewline(b);
    if p < |b| {
      JoinedSnoc(f.lines, b[..p]);
      assert b == b[..p] + ['\n'] + b[p + 1..];
    }
  }

  /** For any split of the stream into reads: the delivered lines, each with its newline, followed by what is still in
      the buffer, are exactly the bytes read. */
  lemma {:induction false} BytesKept(chunks: seq<seq<char>>)
    ensures Joined(FeedAll(chunks).lines) + FeedAll(chunks).buf == Flat(chunks)
  {
    if chunks != [] {
      BytesKept(chunks[..|chunks| - 1]);
      FeedKeepsBytes(FeedAll(chunks[..|chunks| - 1]), chunks[|chunks| - 1]);
    }
  }

  lemma {:induction false} LinesHaveNoNewline(chunks: seq<seq<char>>)
    ensures forall k :: 0 <= k < |FeedAll(chunks).lines| ==> '\n' !in FeedAll(chunks).lines[k]
  {
    if chunks != [] {
      LinesHaveNoNewline(chunks[..|chunks| - 1]);
    }
  }

  /** The buffer never overflows; when it is full it holds no complete line. */
  lemma {:induction false} FullMeansNoLine(chunks: seq<seq<char>>)
    requires Readable(chunks)
    ensures |FeedAll(chunks).buf| <= 512
    ensures |FeedAll(chunks).buf| == 512 ==> '\n' !in FeedAll(chunks).buf
  {
    if chunks != [] {
      assert ReadableAt(chunks, |chunks| - 1);
    }
  }

  // ----- the delivered lines do not depend on the reads -----

  /** All complete lines of a stream. */
  function AllLines(s: seq<char>): seq<seq<char>>
    decreases |s|
  {
    var p := FirstNewline(s);
    if p < |s| then [s[..p]] + AllLines(s[p + 1..]) else []
  }

  function JoinedFront(lines: seq<seq<char>>): seq<char> {
    if lines == [] then [] else lines[0] + ['\n'] + JoinedFront(lines[1..])
  }

  lemma {:induction false} JoinedBothWays(lines: seq<seq<char>>)
    ensures Joined(lines) == JoinedFront(lines)
  {
    if |lines| > 1 {
      var last := |lines| - 1;
      JoinedBothWays(lines[..last]);
      JoinedBothWays(lines[1..]);
      JoinedBothWays(lines[1..][..last - 1]);
      assert lines[..last][1..] == lines[1..][..last - 1];
      assert Joined(lines[1..]) == Joined(lines[1..][..last - 1]) + lines[last] + ['\n'];
      assert Joined(lines) == JoinedFront(lines[..last]) + lines[last] + ['\n'];
      assert JoinedFront(lines[..last]) == lines[0] + ['\n'] + JoinedFront(lines[..last][1..]);
    } else if |lines| == 1 {
      assert lines[..0] == [] && lines[1..] == [];
    }
  }

  lemma FirstNewlineAt(line: seq<char>, rest: seq<char>)
    requires '\n' !in line
    ensures FirstNewline(line + ['\n'] + rest) == |line|
  {
    var s := line + ['\n'] + rest;
    assert s[|line|] == '\n' && forall k :: 0 <= k < |line| ==> s[k] == line[k];
  }

  lemma AllLinesStep(line: seq<char>, rest: seq<char>)
    requires '\n' !in line
    ensures AllLines(line + ['\n'] + rest) == [line] + AllLines(rest)
  {
    hide FirstNewline;
    var s := line + ['\n'] + rest;
    FirstNewlineAt(line, rest);
    assert s[..|line|] == line && s[|line| + 1..] == rest;
  }

  lemma {:induction false} LinesArePrefix(lines: seq<seq<char>>, rest: seq<char>)
    requires forall k :: 0 <= k < |lines| ==> '\n' !in lines[k]
    ensures AllLines(JoinedFront(lines) + rest) == lines + AllLines(rest)
  {
    hide AllLines;
    if lines == [] {
      assert JoinedFront(lines) + rest == rest;
    } else {
      var after := JoinedFront(lines[1..]) + rest;
      assert JoinedFront(lines) + rest == lines[0] + ['\n'] + after;
      AllLinesStep(lines[0], after);
      LinesArePrefix(lines[1..], rest);
      assert lines == [lines[0]] + lines[1..];
    }
  }

  /** Whatever the reads were, the delivered lines are the first complete lines of the stream, in order; what is left
      in the buffer holds the others. */
  lemma DeliveredAreFirstLines(chunks: seq<seq<char>>)
    ensures AllLines(Flat(chunks)) == FeedAll(chunks).lines + AllLines(FeedAll(chunks).buf)
  {
    BytesKept(chunks);
    LinesHaveNoNewline(chunks);
    JoinedBothWays(FeedAll(chunks).lines);
    LinesArePrefix(FeedAll(chunks).lines, FeedAll(chunks).buf);
  }

  /** Two ways of reading the same bytes deliver the same lines, as far as both got; they end alike if both buffers
      hold no complete line. */
  lemma ChunkingDoesNotMatter(a: seq<seq<char>>, b: seq<seq<char>>)
    requires Flat(a) == Flat(b)
    ensures FeedAll(a).lines <= FeedAll(b).lines || FeedAll(b).lines <= FeedAll(a).lines
    ensures '\n' !in FeedAll(a).buf && '\n' !in FeedAll(b).buf ==> FeedAll(a) == FeedAll(b)
  {
    hide FeedAll, Flat, AllLines, Joined;
    DeliveredAreFirstLines(a);
    DeliveredAreFirstLines(b);
    BytesKept(a);
    BytesKept(b);
    NoLines(FeedAll(a).buf);
    NoLines(FeedAll(b).buf);
    var x, y := FeedAll(a), FeedAll(b);
    var all := AllLines(Flat(a));
    assert x.lines == all[..|x.lines|] && y.lines == all[..|y.lines|];
    if '\n' !in x.buf && '\n' !in y.buf {
      assert x.lines == all == y.lines;
      var j := Joined(all);
      assert x.buf == Flat(a)[|j|..] && y.buf == Flat(b)[|j|..];
    }
  }

  // ----- when every complete line has been delivered -----

  function Newlines(s: seq<char>): nat {
    if s == [] then 0 else Newlines(s[..|s| - 1]) + if s[|s| - 1] == '\n' then 1 else 0
  }

  lemma {:induction false} NewlinesConcat(a: seq<char>, b: seq<char>)
    ensures Newlines(a + b) == Newlines(a) + Newlines(b)
  {
    if b == [] {
      assert a + b == a;
    } else {
      assert (a + b)[..|a + b| - 1] == a + b[..|b| - 1];
      NewlinesConcat(a, b[..|b| - 1]);
    }
  }

  lemma {:induction false} NewlinesZero(s: seq<char>)
    ensures Newlines(s) == 0 <==> '\n' !in s
  {
    if s != [] {
      NewlinesZero(s[..|s| - 1]);
      assert s == s[..|s| - 1] + [s[|s| - 1]];
    }
  }

  lemma FeedBacklog(f: Framer, chunk: seq<char>)
    ensures var had := Newlines(f.buf) + Newlines(chunk);
            Newlines(Feed(f, chunk).buf) == if had > 0 then had - 1 else 0
  {
    hide FirstNewline, Newlines;
    var b := f.buf + chunk;
    var p := FirstNewline(b);
    NewlinesConcat(f.buf, chunk);
    if p < |b| {
      CutOneLine(b, p);
    } else {
      NewlinesZero(b);
    }
  }

  lemma CutOneLine(b: seq<char>, p: nat)
    requires p < |b| && b[p] == '\n' && forall k :: 0 <= k < p ==> b[k] != '\n'
    ensures Newlines(b) == Newlines(b[p + 1..]) + 1
  {
    assert Newlines(['\n']) == 1 by { assert ['\n'][..0] == []; }
    hide Newlines;
    assert b == b[..p] + (['\n'] + b[p + 1..]);
    NewlinesConcat(b[..p], ['\n'] + b[p + 1..]);
    NewlinesConcat(['\n'], b[p + 1..]);
    NewlinesZero(b[..p]);
  }

  /** The newlines in the reads from number `k` on. */
  ghost function NewlinesFrom(chunks: seq<seq<char>>, k: nat): nat
    requires k <= |chunks|
    decreases |chunks| - k
  {
    if k == |chunks| then 0 else Newlines(chunks[k]) + NewlinesFrom(chunks, k + 1)
  }

  lemma {:induction false} NewlinesFromSnoc(chunks: seq<seq<char>>, c: seq<char>, k: nat)
    requires k <= |chunks|
    ensures NewlinesFrom(chunks + [c], k) == NewlinesFrom(chunks, k) + Newlines(c)
    decreases |chunks| - k
  {
    if k < |chunks| {
      NewlinesFromSnoc(chunks, c, k + 1);
    } else {
      assert NewlinesFrom(chunks + [c], |chunks| + 1) == 0;
    }
  }

  /** From read `k` on, the reads brought at most `m` newlines more than one per read. */
  ghost predicate AtMost(chunks: seq<seq<char>>, k: nat, m: int)
    requires k <= |chunks|
  {
    NewlinesFrom(chunks, k) - (|chunks| - k) <= m
  }

  /** The number of complete lines waiting in the buffer is the largest surplus of any suffix of the reads. */
  lemma {:induction false} BacklogBound(chunks: seq<seq<char>>, m: nat)
    ensures Newlines(FeedAll(chunks).buf) <= m <==> forall k :: 0 <= k <= |chunks| ==> AtMost(chunks, k, m)
  {
    if chunks == [] {
      assert AtMost(chunks, 0, m);
    } else {
      var before, c := chunks[..|chunks| - 1], chunks[|chunks| - 1];
      assert chunks == before + [c];
      FeedBacklog(FeedAll(before), c);
      var m' := m + 1 - Newlines(c);
      forall k | 0 <= k <= |before| ensures AtMost(chunks, k, m) <==> AtMost(before, k, m') {
        NewlinesFromSnoc(before, c, k);
      }
      assert AtMost(chunks, |chunks|, m);
      if m' >= 0 {
        BacklogBound(before, m');
      } else {
        assert !AtMost(before, |before|, m');
        assert !AtMost(chunks, |before|, m);
      }
    }
  }

  /** The server takes one line per read, so complete lines can be left waiting. All of them have been delivered if and
      only if no run of final reads brought more newlines than it has reads. */
  lemma AllDeliveredIff(chunks: seq<seq<char>>)
    ensures FeedAll(chunks).lines == AllLines(Flat(chunks)) <==> forall k :: 0 <= k <= |chunks| ==> AtMost(chunks, k, 0)
  {
    hide FeedAll, Flat, AtMost, Newlines, AllLines;
    var f := FeedAll(chunks);
    DeliveredAreFirstLines(chunks);
    BacklogBound(chunks, 0);
    NewlinesZero(f.buf);
    NoLines(f.buf);
    assert f.lines == f.lines + AllLines(f.buf) <==> AllLines(f.buf) == [];
  }

  lemma NoLines(s: seq<char>)
    ensures AllLines(s) == [] <==> '\n' !in s
  {
    hide FirstNewline;
  }

  lemma FirstRead(line: seq<char>, rest: seq<char>)
    requires '\n' !in line
    ensures FeedAll([line + ['\n'] + rest]) == Framer(rest, [line])
  {
    hide FirstNewline;
    var s := line + ['\n'] + rest;
    var none: seq<seq<char>> := [];
    assert [s][..0] == none;
    FirstNewlineAt(line, rest);
    assert [] + s == s && s[|line| + 1..] == rest && s[..|line|] == line;
  }

  /** Two lines that arrive in one read: the second one waits for the next read. */
  lemma SecondLineWaits(a: seq<char>, b: seq<char>)
    requires '\n' !in a && '\n' !in b
    ensures var chunks := [a + ['\n'] + (b + ['\n'])];
            FeedAll(chunks) == Framer(b + ['\n'], [a]) && AllLines(Flat(chunks)) == [a, b]
  {
    hide AllLines, FeedAll, Flat;
    var chunks := [a + ['\n'] + (b + ['\n'])];
    FirstRead(a, b + ['\n']);
    DeliveredAreFirstLines(chunks);
    AllLinesStep(b, []);
    NoLines([]);
    assert b + ['\n'] + [] == b + ['\n'];
  }

  // ----- the code: a fixed buffer changed in place -----

  class Connection {
    const request: array<char>
    var requestUsed: nat

    ghost predicate Valid()
      reads this, request
    {
      request.Length == MAX_BUFFER_SIZE && requestUsed <= MAX_BUFFER_SIZE
    }

    ghost function Buffered(): seq<char>
      requires Valid()
      reads this, request
    {
      request[..requestUsed]
    }

    constructor ()
      ensures Valid() && fresh(request) && Buffered() == []
    {
      request := new char[MAX_BUFFER_SIZE](_ => '\0');
      requestUsed := 0;
    }

    /** memchr: the first newline among the used bytes, or -1. */
    method FindNewline() returns (endl: int)
      requires Valid()
      ensures endl == if '\n' in Buffered() then FirstNewline(Buffered()) else -1
    {
      endl := 0;
      while endl < requestUsed
        invariant 0 <= endl <= requestUsed
        invariant '\n' !in request[..endl]
      {
        if request[endl] == '\n' {
          var line, rest := request[..endl], request[endl + 1..requestUsed];
          assert Buffered() == line + ['\n'] + rest;
          FirstNewlineAt(line, rest);
          return;
        }
        endl := endl + 1;
      }
      endl := -1;
    }

    /** What read stores behind the used bytes. */
    method Append(chunk: seq<char>)
      requires Valid() && |chunk| <= MAX_BUFFER_SIZE - requestUsed
      modifies this, request
      ensures Valid() && Buffered() == old(Buffered()) + chunk
    {
      forall k | 0 <= k < |chunk| {
        request[requestUsed + k] := chunk[k];
      }
      requestUsed := requestUsed + |chunk|;
    }

    /** The newline becomes a terminating zero, the callbacks see the bytes in front of it, and the rest of the buffer
        moves to the front. */
    method CutLine(endl: nat) returns (line: seq<char>)
      requires Valid() && endl < requestUsed
      modifies this, request
      ensures Valid() && line == old(Buffered())[..endl] && Buffered() == old(Buffered())[endl + 1..]
    {
      ghost var b := Buffered();
      request[endl] := '\0';
      line := request[..endl];
      var next := endl + 1;
      assert forall k :: next <= k < requestUsed ==> request[k] == b[k];
      forall k | 0 <= k < MAX_BUFFER_SIZE - next {
        request[k] := request[next + k];
      }
      requestUsed := requestUsed - next;
      assert Buffered() == b[next..];
    }

    /** A readable connection: `chunk` is what read returns for the room that is left. A full buffer is skipped. */
    method OnReadable(chunk: seq<char>) returns (line: Option<seq<char>>)
      requires Valid()
      requires requestUsed < MAX_BUFFER_SIZE ==> 0 < |chunk| <= MAX_BUFFER_SIZE - requestUsed
      modifies this, request
      ensures Valid()
      ensures old(requestUsed) == MAX_BUFFER_SIZE ==> line == None && Buffered() == old(Buffered())
      ensures old(requestUsed) < MAX_BUFFER_SIZE ==>
                Feed(Framer(old(Buffered()), []), chunk)
                == Framer(Buffered(), match line case None => [] case Some(l) => [l])
    {
      hide FirstNewline;
      line := None;
      var remainder := MAX_BUFFER_SIZE - requestUsed;
      if remainder <= 0 {
        return;
      }
      Append(chunk);
      var endl := FindNewline();
      if endl >= 0 {
        var l := CutLine(endl);
        line := Some(l);
      }
    }
  }

  /** The reads of one connection, one after the other. */
  method Serve(chunks: seq<seq<char>>) returns (lines: seq<seq<char>>, rest: seq<char>)
    requires Readable(chunks)
    ensures FeedAll(chunks) == Framer(rest, lines)
  {
    hide Feed, ReadableAt;
    var c := new Connection();
    lines := [];
    for i := 0 to |chunks|
      invariant c.Valid() && fresh(c) && fresh(c.request)
      invariant FeedAll(chunks[..i]) == Framer(c.Buffered(), lines)
    {
      Room(chunks, i);
      FeedAfter(c.Buffered(), lines, chunks[i]);
      assert chunks[..i + 1][..i] == chunks[..i];
      var line := c.OnReadable(chunks[i]);
      match line
      case None =>
      case Some(l) => lines := lines + [l];
    }
    assert chunks[..|chunks|] == chunks;
    rest := c.request[..c.requestUsed];
  }

  lemma Room(chunks: seq<seq<char>>, i: nat)
    requires Readable(chunks) && i < |chunks|
    ensures 0 < |chunks[i]| <= MAX_BUFFER_SIZE - |FeedAll(chunks[..i]).buf|
  {
    assert ReadableAt(chunks, i);
  }

  /** Earlier lines do not influence what a read does. */
  lemma FeedAfter(buf: seq<char>, lines: seq<seq<char>>, chunk: seq<char>)
    ensures var g := Feed(Framer(buf, []), chunk);
            Feed(Framer(buf, lines), chunk) == Framer(g.buf, lines + g.lines)
  {
    hide FirstNewline;
  }

  // ----- when a connection is stuck -----

  /** The last 512 bytes of the stream hold no newline. */
  ghost predicate Unterminated(s: seq<char>) {
    |s| >= 512 && '\n' !in s[|s| - 512..]
  }

  lemma JoinedEndsInNewline(lines: seq<seq<char>>)
    requires lines != []
    ensures Joined(lines) != [] && Joined(lines)[|Joined(lines)| - 1] == '\n'
  { }

  /** The buffer is full if and only if the last 512 bytes of the stream hold no newline, whatever the reads were and
      however many lines are still waiting before that. */
  lemma FullIff(chunks: seq<seq<char>>)
    requires Readable(chunks)
    ensures |FeedAll(chunks).buf| == 512 <==> Unterminated(Flat(chunks))
  {
    BytesKept(chunks);
    FullMeansNoLine(chunks);
    hide FeedAll, Flat, Joined, Readable;
    var f, s := FeedAll(chunks), Flat(chunks);
    if |f.buf| == MAX_BUFFER_SIZE {
      assert s[|s| - MAX_BUFFER_SIZE..] == f.buf;
    } else if f.lines != [] && |s| >= MAX_BUFFER_SIZE {
      JoinedEndsInNewline(f.lines);
      var last := |Joined(f.lines)| - 1;
      assert s[last] == '\n';
      assert s[|s| - MAX_BUFFER_SIZE..][last - (|s| - MAX_BUFFER_SIZE)] == '\n';
    }
  }

  /** A connection is stuck, nothing it sends is read any more, if and only if its last 512 bytes hold no newline. */
  lemma FullIsStuck(chunks: seq<seq<char>>)
    requires Readable(chunks)
    ensures (forall chunk :: !Readable(chunks + [chunk])) <==> Unterminated(Flat(chunks))
  {
    hide FeedAll, Flat, Unterminated;
    FullIff(chunks);
    FullMeansNoLine(chunks);
    forall chunk ensures Readable(chunks + [chunk]) <==> 0 < |chunk| <= MAX_BUFFER_SIZE - |FeedAll(chunks).buf| {
      ReadableSnoc(chunks, chunk);
    }
    if |FeedAll(chunks).buf| < MAX_BUFFER_SIZE {
      assert Readable(chunks + ["x"]);
    }
  }

  lemma ReadableSnoc(chunks: seq<seq<char>>, chunk: seq<char>)
    requires Readable(chunks)
    ensures Readable(chunks + [chunk]) <==> 0 < |chunk| <= MAX_BUFFER_SIZE - |FeedAll(chunks).buf|
  {
    hide FeedAll;
    var all := chunks + [chunk];
    assert all[..|chunks|] == chunks;
    forall k | 0 <= k < |chunks| ensures ReadableAt(all, k) {
      assert ReadableAt(chunks, k) && all[..k] == chunks[..k];
    }
    if 0 < |chunk| <= MAX_BUFFER_SIZE - |FeedAll(chunks).buf| {
      assert ReadableAt(all, |chunks|);
    } else {
      assert !ReadableAt(all, |chunks|);
    }
  }

  /** Stuck for good: no longer sequence of reads begins like this one. */
  lemma StuckForGood(chunks: seq<seq<char>>, more: seq<seq<char>>)
    requires Readable(chunks) && Unterminated(Flat(chunks)) && more != []
    ensures !Readable(chunks + more)
  {
    hide Unterminated;
    FullIff(chunks);
    assert (chunks + more)[..|chunks|] == chunks;
    assert !ReadableAt(chunks + more, |chunks|);
  }
}
