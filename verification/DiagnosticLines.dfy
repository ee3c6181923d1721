/** Splitting the Core's diagnostic output into lines, chunk by chunk, with a bound on unfinished lines. */
module DiagnosticLines {
  type Byte = x: int | 0 <= x < 256

  type Bytes = seq<Byte>

  const NEWLINE: Byte := 10
  const LIMIT: nat := 64 * 1024

  /** The position of the first newline, or the length. */
  function FirstNewline(s: Bytes): (i: nat)
    ensures i <= |s|
  {
    if s == [] || s[0] == NEWLINE then 0 else 1 + FirstNewline(s[1..])
  }

  /** The complete lines of a stream, without their newlines. */
  function Lines(s: Bytes): seq<Bytes>
    decreases |s|
  {
    if FirstNewline(s) == |s| then [] else [s[..FirstNewline(s)]] + Lines(s[FirstNewline(s) + 1..])
  }

  /** What follows the last newline. */
  function Tail(s: Bytes): Bytes
    decreases |s|
  {
    if FirstNewline(s) == |s| then s else Tail(s[FirstNewline(s) + 1..])
  }

  function Kept(tail: Bytes): Bytes {
    if |tail| > LIMIT then [] else tail
  }

  class LineWriter {
    var buffer: Bytes
    var imported: seq<Bytes>   // the lines handed to the importer, oldest first

    constructor ()
      ensures buffer == [] && imported == []
    {
      buffer, imported := [], [];
    }

    method IndexNewline() returns (index: int)
      ensures index == if FirstNewline(buffer) == |buffer| then -1 else FirstNewline(buffer)
    {
      var i := 0;
      while i < |buffer| && buffer[i] != NEWLINE
        invariant 0 <= i <= |buffer|
        invariant FirstNewline(buffer) == i + FirstNewline(buffer[i..])
      {
        i := i + 1;
      }
      index := if i == |buffer| then -1 else i;
    }

    method Write(chunk: Bytes) returns (written: nat)
      modifies this
      ensures written == |chunk|
      ensures imported == old(imported) + Lines(old(buffer) + chunk)
      ensures buffer == Kept(Tail(old(buffer) + chunk))
    {
      hide FirstNewline, Lines, Tail;
      buffer := buffer + chunk;
      var whole := buffer;
      var index := IndexNewline();
      while index >= 0
        invariant index == if FirstNewline(buffer) == |buffer| then -1 else FirstNewline(buffer)
        invariant old(imported) + Lines(whole) == imported + Lines(buffer) && Tail(whole) == Tail(buffer)
        decreases |buffer|
      {
        LinesStep(buffer);
        Assoc(imported, [buffer[..index]], Lines(buffer[index + 1..]));
        var line := buffer[..index];
        buffer := buffer[index + 1..];
        imported := imported + [line];
        index := IndexNewline();
      }
      LinesStep(buffer);
      assert imported + Lines(buffer) == imported;
      if |buffer| > LIMIT {
        buffer := [];
      }
      written := |chunk|;
    }
  }

  // ---------------------------------------------------------------- splitting and chunks

  lemma {:induction false} LinesStep(s: Bytes)
    ensures FirstNewline(s) == |s| ==> Lines(s) == [] && Tail(s) == s
    ensures FirstNewline(s) < |s| ==>
              && Lines(s) == [s[..FirstNewline(s)]] + Lines(s[FirstNewline(s) + 1..])
              && Tail(s) == Tail(s[FirstNewline(s) + 1..])
  {
    hide FirstNewline;
  }

  lemma Assoc<T>(a: seq<T>, b: seq<T>, c: seq<T>)
    ensures a + (b + c) == a + b + c
  {
  }

  lemma {:induction false} FirstNewlineFound(s: Bytes)
    ensures FirstNewline(s) < |s| <==> NEWLINE in s
  {
    if s == [] {
    } else {
      assert s == [s[0]] + s[1..];
      FirstNewlineFound(s[1..]);
    }
  }

  lemma {:induction false} FirstNewlineAppend(s: Bytes, t: Bytes)
    ensures FirstNewline(s + t) == if FirstNewline(s) < |s| then FirstNewline(s) else |s| + FirstNewline(t)
  {
    if s == [] {
      assert s + t == t;
    } else if s[0] != NEWLINE {
      FirstNewlineAppend(s[1..], t);
      assert (s + t)[1..] == s[1..] + t;
    }
  }

  /** Splitting may be resumed from the unfinished line alone. */
  lemma {:induction false} SplitAppend(s: Bytes, t: Bytes)
    ensures Lines(s + t) == Lines(s) + Lines(Tail(s) + t)
    ensures Tail(s + t) == Tail(Tail(s) + t)
    decreases |s|
  {
    hide FirstNewline, Lines, Tail;
    var i := FirstNewline(s);
    LinesStep(s);
    if i < |s| {
      FirstNewlineAppend(s, t);
      LinesStep(s + t);
      assert (s + t)[..i] == s[..i];
      assert (s + t)[i + 1..] == s[i + 1..] + t;
      SplitAppend(s[i + 1..], t);
      Assoc([s[..i]], Lines(s[i + 1..]), Lines(Tail(s) + t));
    } else {
      assert [] + Lines(s + t) == Lines(s + t);
    }
  }

  /** Only the newlines of t complete lines of an unfinished line followed by t. */
  lemma SplitUnfinished(u: Bytes, t: Bytes)
    requires NEWLINE !in u
    ensures NEWLINE !in t ==> Lines(u + t) == [] && Tail(u + t) == u + t
    ensures NEWLINE in t ==>
              && FirstNewline(t) < |t|
              && Lines(u + t) == [u + t[..FirstNewline(t)]] + Lines(t[FirstNewline(t) + 1..])
              && Tail(u + t) == Tail(t)
  {
    hide FirstNewline, Lines, Tail;
    var i := FirstNewline(t);
    FirstNewlineFound(u);
    FirstNewlineFound(t);
    FirstNewlineAppend(u, t);
    LinesStep(u + t);
    LinesStep(t);
    if i < |t| {
      assert (u + t)[..|u| + i] == u + t[..i];
      assert (u + t)[|u| + i + 1..] == t[i + 1..];
    }
  }

  function Unsplit(lines: seq<Bytes>): Bytes {
    if lines == [] then [] else lines[0] + [10] + Unsplit(lines[1..])
  }

  /** Splitting loses nothing: the lines, each with its newline back, and the tail are the stream. */
  lemma {:induction false} SplitIsExact(s: Bytes)
    ensures Unsplit(Lines(s)) + Tail(s) == s
    ensures forall i | 0 <= i < |Lines(s)| :: NEWLINE !in Lines(s)[i]
    decreases |s|
  {
    hide FirstNewline, Lines, Tail;
    var i := FirstNewline(s);
    LinesStep(s);
    if i < |s| {
      FirstNewlineIsFirst(s);
      SplitIsExact(s[i + 1..]);
      assert ([s[..i]] + Lines(s[i + 1..]))[1..] == Lines(s[i + 1..]);
      assert s == s[..i] + [NEWLINE] + s[i + 1..];
      Assoc(s[..i] + [NEWLINE], Unsplit(Lines(s[i + 1..])), Tail(s));
    } else {
      assert [] + s == s;
    }
  }

  lemma {:induction false} FirstNewlineIsFirst(s: Bytes)
    requires FirstNewline(s) < |s|
    ensures s[FirstNewline(s)] == NEWLINE && NEWLINE !in s[..FirstNewline(s)]
  {
    if s[0] != NEWLINE {
      FirstNewlineIsFirst(s[1..]);
      assert s[..FirstNewline(s)] == [s[0]] + s[1..][..FirstNewline(s[1..])];
    }
  }

  // ---------------------------------------------------------------- runs

  /** The first n chunks in one piece. */
  function Concat(chunks: seq<Bytes>, n: nat): Bytes
    requires n <= |chunks|
  {
    if n == 0 then [] else Concat(chunks, n - 1) + chunks[n - 1]
  }

  datatype State = State(imported: seq<Bytes>, buffer: Bytes)

  /** The writer after the first n chunks. */
  function After(chunks: seq<Bytes>, n: nat): State
    requires n <= |chunks|
  {
    if n == 0 then State([], [])
    else
      var s := After(chunks, n - 1);
      State(s.imported + Lines(s.buffer + chunks[n - 1]), Kept(Tail(s.buffer + chunks[n - 1])))
  }

  function TrueTail(chunks: seq<Bytes>, n: nat): Bytes
    requires n <= |chunks|
  {
    Tail(Concat(chunks, n))
  }

  lemma TrueTailStep(chunks: seq<Bytes>, n: nat)
    requires n < |chunks|
    ensures TrueTail(chunks, n + 1) == Tail(TrueTail(chunks, n) + chunks[n])
    ensures Lines(Concat(chunks, n + 1)) == Lines(Concat(chunks, n)) + Lines(TrueTail(chunks, n) + chunks[n])
  {
    SplitAppend(Concat(chunks, n), chunks[n]);
  }

  /** The line unfinished after n chunks was already too long after some i of them. */
  ghost predicate Overflowed(chunks: seq<Bytes>, n: nat)
    requires n <= |chunks|
  {
    exists i | 0 <= i <= n ::
      |TrueTail(chunks, i)| > 65_536 && forall j | i <= j < n :: NEWLINE !in chunks[j]
  }

  lemma OverflowedStep(chunks: seq<Bytes>, n: nat)
    requires n < |chunks|
    ensures Overflowed(chunks, n + 1) <==>
              |TrueTail(chunks, n + 1)| > 65_536 || (Overflowed(chunks, n) && NEWLINE !in chunks[n])
  {
    hide TrueTail;
    if Overflowed(chunks, n) && NEWLINE !in chunks[n] {
      var i :| 0 <= i <= n && |TrueTail(chunks, i)| > 65_536 && forall j | i <= j < n :: NEWLINE !in chunks[j];
      assert forall j | i <= j < n + 1 :: NEWLINE !in chunks[j];
    }
  }

  /** The buffer is the unfinished line, unless that line overflowed: then it is shorter. */
  lemma {:induction false} BufferIsExact(chunks: seq<Bytes>, n: nat)
    requires n <= |chunks|
    ensures NEWLINE !in After(chunks, n).buffer
    ensures if Overflowed(chunks, n) then |After(chunks, n).buffer| < |TrueTail(chunks, n)|
            else After(chunks, n).buffer == TrueTail(chunks, n)
  {
    hide TrueTail, Overflowed, Tail, Lines;
    if n == 0 {
      NothingOverflowed(chunks);
    } else {
      var s, chunk, u := After(chunks, n - 1), chunks[n - 1], TrueTail(chunks, n - 1);
      BufferIsExact(chunks, n - 1);
      TrueTailStep(chunks, n - 1);
      OverflowedStep(chunks, n - 1);
      TailHasNoNewline(Concat(chunks, n - 1));
      TailHasNoNewline(chunk);
      TrueTailIsTail(chunks, n - 1);
      SplitUnfinished(s.buffer, chunk);
      SplitUnfinished(u, chunk);
    }
  }

  lemma {:induction false} TailHasNoNewline(s: Bytes)
    ensures NEWLINE !in Tail(s)
    decreases |s|
  {
    hide FirstNewline, Tail;
    LinesStep(s);
    FirstNewlineFound(s);
    if FirstNewline(s) < |s| {
      TailHasNoNewline(s[FirstNewline(s) + 1..]);
    }
  }

  lemma NothingOverflowed(chunks: seq<Bytes>)
    ensures !Overflowed(chunks, 0) && TrueTail(chunks, 0) == []
  {
    assert Concat(chunks, 0) == [];
  }

  function Size(lines: seq<Bytes>): nat {
    if lines == [] then 0 else |lines[0]| + Size(lines[1..])
  }

  lemma {:induction false} SizeAppend(a: seq<Bytes>, b: seq<Bytes>)
    ensures Size(a + b) == Size(a) + Size(b)
  {
    if a == [] {
      assert a + b == b;
    } else {
      SizeAppend(a[1..], b);
      assert (a + b)[1..] == a[1..] + b;
    }
  }

  /** Some line overflowed and was completed later, short. */
  ghost predicate Mutilated(chunks: seq<Bytes>, n: nat)
    requires n <= |chunks|
  {
    exists m | 0 <= m < n :: Overflowed(chunks, m) && NEWLINE in chunks[m]
  }

  lemma MutilatedStep(chunks: seq<Bytes>, n: nat)
    requires n < |chunks|
    ensures Mutilated(chunks, n + 1) <==> Mutilated(chunks, n) || (Overflowed(chunks, n) && NEWLINE in chunks[n])
  {
    hide Overflowed;
  }

  /** One chunk completes as many lines as it should; they are shorter exactly after an overflow. */
  lemma CompletedLines(chunks: seq<Bytes>, n: nat)
    requires n < |chunks|
    ensures var got, due := Lines(After(chunks, n).buffer + chunks[n]), Lines(TrueTail(chunks, n) + chunks[n]);
            if Overflowed(chunks, n) && NEWLINE in chunks[n] then Size(got) < Size(due) else got == due
  {
    hide TrueTail, Overflowed, Lines, Tail, FirstNewline;
    var b, u, chunk := After(chunks, n).buffer, TrueTail(chunks, n), chunks[n];
    BufferIsExact(chunks, n);
    TailHasNoNewline(Concat(chunks, n));
    TrueTailIsTail(chunks, n);
    SplitUnfinished(b, chunk);
    SplitUnfinished(u, chunk);
    if NEWLINE in chunk {
      var i := FirstNewline(chunk);
      SizeAppend([b + chunk[..i]], Lines(chunk[i + 1..]));
      SizeAppend([u + chunk[..i]], Lines(chunk[i + 1..]));
    }
  }

  lemma TrueTailIsTail(chunks: seq<Bytes>, n: nat)
    requires n <= |chunks|
    ensures TrueTail(chunks, n) == Tail(Concat(chunks, n))
  {
  }

  /**
   * The imported lines are those of the whole stream, however it is cut, exactly when no line was found
   * longer than 64 KiB at the end of a chunk and completed by a later one.
   */
  lemma {:induction false} ImportIsExact(chunks: seq<Bytes>, n: nat)
    requires n <= |chunks|
    ensures After(chunks, n).imported == Lines(Concat(chunks, n)) <==> !Mutilated(chunks, n)
    ensures Size(After(chunks, n).imported) <= Size(Lines(Concat(chunks, n)))
    ensures Mutilated(chunks, n) ==> Size(After(chunks, n).imported) < Size(Lines(Concat(chunks, n)))
  {
    hide TrueTail, Overflowed, Mutilated, Lines, Tail, Size;
    if n == 0 {
      NothingMutilated(chunks);
    } else {
      var s, chunk, u := After(chunks, n - 1), chunks[n - 1], TrueTail(chunks, n - 1);
      ImportIsExact(chunks, n - 1);
      CompletedLines(chunks, n - 1);
      MutilatedStep(chunks, n - 1);
      TrueTailStep(chunks, n - 1);
      var got, before := Lines(s.buffer + chunk), Lines(Concat(chunks, n - 1));
      SizeAppend(s.imported, got);
      SizeAppend(before, Lines(u + chunk));
      if got == Lines(u + chunk) && s.imported + got == before + got {
        Cancel(s.imported, before, got);
      }
    }
  }

  lemma Cancel<T>(a: seq<T>, b: seq<T>, x: seq<T>)
    requires a + x == b + x
    ensures a == b
  {
    assert |a| + |x| == |a + x| && |b| + |x| == |b + x|;
    assert a == (a + x)[..|a|];
    assert b == (b + x)[..|a|];
  }

  lemma NothingMutilated(chunks: seq<Bytes>)
    ensures !Mutilated(chunks, 0) && Lines(Concat(chunks, 0)) == []
  {
    assert Concat(chunks, 0) == [];
  }

  // ---------------------------------------------------------------- short lines

  lemma {:induction false} LinesStay(chunks: seq<Bytes>, m: nat, n: nat, line: Bytes)
    requires m <= n <= |chunks| && line in Lines(Concat(chunks, m))
    ensures line in Lines(Concat(chunks, n))
  {
    hide Lines;
    if m == n {
    } else {
      LinesStay(chunks, m, n - 1, line);
      TrueTailStep(chunks, n - 1);
    }
  }

  lemma {:induction false} TailGrows(chunks: seq<Bytes>, i: nat, n: nat)
    requires i <= n <= |chunks| && forall j | i <= j < n :: NEWLINE !in chunks[j]
    ensures |TrueTail(chunks, i)| <= |TrueTail(chunks, n)|
  {
    hide Tail;
    if i == n {
    } else {
      TailGrows(chunks, i, n - 1);
      TrueTailStep(chunks, n - 1);
      TailHasNoNewline(Concat(chunks, n - 1));
      SplitUnfinished(TrueTail(chunks, n - 1), chunks[n - 1]);
    }
  }

  /** An overflowed line that was completed is longer than the limit. */
  lemma MutilatedLineIsLong(chunks: seq<Bytes>, n: nat)
    requires n <= |chunks| && Mutilated(chunks, n)
    ensures exists line :: line in Lines(Concat(chunks, n)) && |line| > 65_536
  {
    hide Lines, Tail, FirstNewline;
    var m :| 0 <= m < n && Overflowed(chunks, m) && NEWLINE in chunks[m];
    var i :| 0 <= i <= m && |TrueTail(chunks, i)| > 65_536 && forall j | i <= j < m :: NEWLINE !in chunks[j];
    TailGrows(chunks, i, m);
    TrueTailStep(chunks, m);
    TailHasNoNewline(Concat(chunks, m));
    SplitUnfinished(TrueTail(chunks, m), chunks[m]);
    var line := TrueTail(chunks, m) + chunks[m][..FirstNewline(chunks[m])];
    assert line in Lines(TrueTail(chunks, m) + chunks[m]);
    LinesStay(chunks, m + 1, n, line);
  }

  /** A stream of lines of at most 64 KiB is imported alike however it is cut into chunks. */
  lemma ChunksDoNotMatter(chunks: seq<Bytes>)
    requires forall line | line in Lines(Concat(chunks, |chunks|)) :: |line| <= 65_536
    ensures After(chunks, |chunks|).imported == Lines(Concat(chunks, |chunks|))
  {
    hide Lines, After, Concat;
    ImportIsExact(chunks, |chunks|);
    if Mutilated(chunks, |chunks|) {
      MutilatedLineIsLong(chunks, |chunks|);
    }
  }
}
