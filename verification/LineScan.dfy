/** The buffered line scanners of apps/grep_app.c and apps/head_app.c: a 256-byte buffer that
    is refilled by reads of any size, cut at newlines in place, and shifted down. */
module LineScan {

  const ROOM: nat := 255   // buf[256] less the terminator

  /** Index of the first newline, or |s|. */
  function Break(s: string): (r: nat)
    ensures r <= |s| && (r < |s| ==> s[r] == '\n') && forall i :: 0 <= i < r ==> s[i] != '\n'
  {
    if s == "" || s[0] == '\n' then 0
    else
      var r := Break(s[1..]);
      assert forall i :: 0 < i < r + 1 ==> s[i] == s[1..][i - 1];
      r + 1
  }

  /** The lines of a file; a last line need not end in a newline. */
  function Lines(s: string): seq<string>
    decreases |s|
  {
    if s == "" then []
    else if Break(s) < |s| then [s[..Break(s)]] + Lines(s[Break(s) + 1..])
    else [s]
  }

  /** Every line with its newline. */
  function Flat(ls: seq<string>): string {
    if ls == [] then "" else ls[0] + "\n" + Flat(ls[1..])
  }

  /** Splitting into lines loses nothing: no line holds a newline, and the lines with their
      newlines are the file, with a newline added if the last one is missing. */
  lemma {:induction false} LinesWhole(s: string)
    ensures forall i :: 0 <= i < |Lines(s)| ==> '\n' !in Lines(s)[i]
    ensures Flat(Lines(s)) == if s == "" || s[|s| - 1] == '\n' then s else s + "\n"
    decreases |s|
  {
    hide Break;
    hide Lines;
    hide Flat;
    LinesCases(s);
    var b := Break(s);
    if b < |s| {
      var h, t := s[..b], s[b + 1..];
      LinesWhole(t);
      FlatCons(h, Lines(t));
      assert s == h + [s[b]] + t;
    } else if s != "" {
      FlatCons(s, []);
      FlatNil();
      assert [s] + [] == [s] && s + "\n" + "" == s + "\n";
    } else {
      FlatNil();
    }
  }

  lemma LinesCases(s: string)
    ensures s == "" ==> Lines(s) == []
    ensures Break(s) < |s| ==> Lines(s) == [s[..Break(s)]] + Lines(s[Break(s) + 1..])
    ensures s != "" && Break(s) == |s| ==> Lines(s) == [s]
  {
    hide Break;
  }

  lemma FlatCons(l: string, ls: seq<string>)
    ensures Flat([l] + ls) == l + "\n" + Flat(ls)
  {
    assert ([l] + ls)[1..] == ls;
  }

  lemma FlatNil()
    ensures Flat([]) == ""
  {
  }

  /** The lines as far as the scanner sees them: a line of 255 characters or more is cut after
      255, and is the last. */
  function Seen(s: string): seq<string>
    decreases |s|
  {
    if s == "" then []
    else if Break(s) >= ROOM then [s[..ROOM]]
    else if Break(s) < |s| then [s[..Break(s)]] + Seen(s[Break(s) + 1..])
    else [s]
  }

  /** Every line but the last has at most 254 characters, the last at most 255. */
  predicate Short(ls: seq<string>) {
    forall i :: 0 <= i < |ls| ==> |ls[i]| < 255 || (|ls[i]| == 255 && i == |ls| - 1)
  }

  lemma ShortTail(l: string, ls: seq<string>)
    requires |l| < ROOM
    ensures Short([l] + ls) <==> Short(ls)
  {
    var m := [l] + ls;
    assert forall i :: 0 <= i < |ls| ==> m[i + 1] == ls[i];
    if Short(m) {
      forall i | 0 <= i < |ls|
        ensures |ls[i]| < ROOM || (|ls[i]| == ROOM && i == |ls| - 1)
      {
        assert |m[i + 1]| < ROOM || (|m[i + 1]| == ROOM && i + 1 == |m| - 1);
      }
    }
  }

  lemma LongFirst(s: string)
    requires s != "" && Break(s) >= ROOM
    ensures Seen(s) == Lines(s) <==> Short(Lines(s))
  {
    hide Break;
    var ls, b := Lines(s), Break(s);
    assert ls != [] && ls[0] == s[..b];
    assert Seen(s) == [s[..ROOM]];
    if Short(ls) {
      assert |ls[0]| < ROOM || (|ls[0]| == ROOM && 0 == |ls| - 1);
      assert ls == [s[..ROOM]];
    }
    if Seen(s) == ls {
      assert |ls| == 1 && |ls[0]| == ROOM;
    }
  }

  /** The scanner sees the file's lines if and only if they are short. */
  lemma {:induction false} SeenExactly(s: string)
    ensures Seen(s) == Lines(s) <==> Short(Lines(s))
    decreases |s|
  {
    hide Break;
    hide Short;
    hide Seen;
    hide Lines;
    var b := Break(s);
    if s == "" || b == |s| < ROOM {
      OneLine(s);
    } else if b >= ROOM {
      LongFirst(s);
    } else {
      var h, t := s[..b], s[b + 1..];
      SeenExactly(t);
      ShortTail(h, Lines(t));
      FirstLine(s);
      assert ([h] + Seen(t))[1..] == Seen(t) && ([h] + Lines(t))[1..] == Lines(t);
    }
  }

  lemma FirstLine(s: string)
    requires Break(s) < ROOM && Break(s) < |s|
    ensures Seen(s) == [s[..Break(s)]] + Seen(s[Break(s) + 1..])
    ensures Lines(s) == [s[..Break(s)]] + Lines(s[Break(s) + 1..])
  {
    hide Break;
  }

  lemma OneLine(s: string)
    requires Break(s) == |s| < ROOM
    ensures Seen(s) == Lines(s) == (if s == "" then [] else [s]) && Short(Lines(s))
  {
  }

  /** strstr(line, pattern) != 0 */
  predicate Contains(line: string, pattern: string) {
    exists i :: 0 <= i <= |line| && OccursAt(line, pattern, i)
  }

  predicate OccursAt(line: string, pattern: string, i: nat)
    requires i <= |line|
  {
    pattern <= line[i..]
  }

  /** A line contains the pattern exactly if the pattern stands between something and something. */
  lemma ContainsExactly(line: string, pattern: string)
    ensures Contains(line, pattern) <==> exists a: string, b: string :: line == a + pattern + b
  {
    if Contains(line, pattern) {
      var i :| 0 <= i <= |line| && OccursAt(line, pattern, i);
      var k := i + |pattern|;
      assert line[i..][..|pattern|] == pattern;
      assert line == line[..i] + pattern + line[k..];
    }
    if exists a: string, b: string :: line == a + pattern + b {
      var a: string, b: string :| line == a + pattern + b;
      assert line[|a|..] == pattern + b;
      assert OccursAt(line, pattern, |a|);
    }
  }

  /** The lines that contain the pattern, in order. */
  function Matching(ls: seq<string>, pattern: string): seq<string> {
    if ls == [] then []
    else
      var last := ls[|ls| - 1];
      Matching(ls[..|ls| - 1], pattern) + if Contains(last, pattern) then [last] else []
  }

  lemma MatchingSnoc(ls: seq<string>, l: string, pattern: string)
    ensures Matching(ls + [l], pattern) == Matching(ls, pattern) + if Contains(l, pattern) then [l] else []
  {
    hide Contains;
    assert (ls + [l])[..|ls|] == ls;
  }

  // ----- the file and the buffer -----

  predicate NulFree(s: string) { '\0' !in s }

  class File {
    const data: string
    var pos: nat

    constructor (data: string)
      ensures this.data == data && pos == 0
    {
      this.data := data;
      pos := 0;
    }

    ghost function Rest(): string
      reads this
      requires pos <= |data|
    {
      data[pos..]
    }

    /** vfs_read: some of what is left, at least one byte if there is one and room for it. */
    method Read(buf: array<char>, at: nat, max: nat) returns (nr: nat)
      requires pos <= |data| && at + max <= buf.Length
      modifies this`pos, buf
      ensures pos == old(pos) + nr <= |data| && nr <= max
      ensures nr == 0 <==> max == 0 || old(pos) == |data|
      ensures buf[at..at + nr] == old(Rest())[..nr]
      ensures forall k :: 0 <= k < buf.Length && !(at <= k < at + nr) ==> buf[k] == old(buf[k])
    {
      nr := 0;
      if max == 0 || pos == |data| { return; }
      var most := if max < |data| - pos then max else |data| - pos;
      var n :| 1 <= n <= most;
      while nr < n
        invariant nr <= n && pos == old(pos)
        invariant forall j :: at <= j < at + nr ==> buf[j] == data[pos + (j - at)]
        invariant forall k :: 0 <= k < buf.Length && !(at <= k < at + nr) ==> buf[k] == old(buf[k])
      {
        buf[at + nr] := data[pos + nr];
        nr := nr + 1;
      }
      ghost var rest := data[pos..];
      assert buf[at..at + nr] == rest[..nr] by {
        forall i | 0 <= i < nr
          ensures buf[at..at + nr][i] == rest[i]
        {
          assert buf[at + i] == data[pos + i];
        }
      }
      pos := pos + nr;
    }
  }

  /** strchr(buf + from, '\n') in a buffer that ends at `end` with a terminator. */
  method FindNewline(buf: array<char>, from: nat, end: nat) returns (at: nat)
    requires from <= end < buf.Length && buf[end] == '\0' && NulFree(buf[from..end])
    ensures from <= at <= end && at == from + Break(buf[from..end])
  {
    at := from;
    while buf[at] != '\0' && buf[at] != '\n'
      invariant from <= at <= end && forall k :: from <= k < at ==> buf[k] != '\n'
      decreases end - at
    {
      assert at < end;
      at := at + 1;
    }
    assert at < end ==> buf[at] == '\n' by {
      if at < end { assert buf[from..end][at - from] == buf[at]; }
    }
    BreakIs(buf[from..end], at - from);
  }

  lemma {:induction false} BreakIs(s: string, r: nat)
    requires r <= |s| && (r < |s| ==> s[r] == '\n') && forall i :: 0 <= i < r ==> s[i] != '\n'
    ensures Break(s) == r
  {
  }

  /** memmove(buf, buf + from, n) */
  method ShiftDown(buf: array<char>, from: nat, n: nat)
    requires from + n <= buf.Length
    modifies buf
    ensures buf[..n] == old(buf[from..from + n])
  {
    var k := 0;
    while k < n
      invariant k <= n && buf[..k] == old(buf[from..from + k])
      invariant forall j :: k <= j < buf.Length ==> buf[j] == old(buf[j])
    {
      buf[k] := buf[from + k];
      k := k + 1;
    }
  }

  /** What is left of the scan: the text in the buffer, then the rest of the file. */
  ghost predicate Scanned(file: string, seen: seq<string>, text: string, rest: string) {
    Seen(file) == seen + Seen(text + rest)
  }

  /** A newline in the buffer completes a line. */
  lemma LineDone(file: string, seen: seq<string>, text: string, rest: string)
    requires Scanned(file, seen, text, rest) && |text| <= ROOM && Break(text) < |text|
    ensures Scanned(file, seen + [text[..Break(text)]], text[Break(text) + 1..], rest)
  {
    hide Seen;
    hide Lines;
    hide Break;
    var s, b := text + rest, Break(text);
    BreakAppend(text, rest);
    FirstLine(s);
    SplitAppend(text, rest, b);
    Assoc(seen, [text[..b]], Seen(text[b + 1..] + rest));
  }

  lemma SplitAppend(text: string, rest: string, b: nat)
    requires b < |text|
    ensures (text + rest)[..b] == text[..b] && (text + rest)[b + 1..] == text[b + 1..] + rest
  {
  }

  lemma BreakAppend(text: string, rest: string)
    requires Break(text) < |text|
    ensures Break(text + rest) == Break(text)
  {
    hide Break;
    BreakIs(text + rest, Break(text));
  }

  lemma Assoc(a: seq<string>, b: seq<string>, c: seq<string>)
    ensures a + (b + c) == (a + b) + c
  {
  }

  /** Reading moves bytes from the file to the buffer. */
  lemma ReadMoves(file: string, seen: seq<string>, text: string, rest: string, n: nat)
    requires Scanned(file, seen, text, rest) && n <= |rest|
    ensures Scanned(file, seen, text + rest[..n], rest[n..])
  {
    assert text + rest == (text + rest[..n]) + rest[n..];
  }

  /** Without a newline in the buffer, and no more read, the buffer is the last line. */
  lemma LastLine(file: string, seen: seq<string>, text: string, rest: string)
    requires Scanned(file, seen, text, rest) && Break(text) == |text| <= ROOM && (rest == "" || |text| == ROOM)
    ensures Seen(file) == if text == "" then seen else seen + [text]
  {
    if |text| == ROOM {
      LongBreak(text, rest);
    } else {
      assert text + rest == text;
    }
  }

  lemma LongBreak(text: string, rest: string)
    requires Break(text) == |text| == ROOM
    ensures Seen(text + rest) == [text]
  {
    var s := text + rest;
    forall i | 0 <= i < ROOM
      ensures s[i] != '\n'
    {
      assert s[i] == text[i];
    }
    assert Break(s) >= ROOM;
    assert s[..ROOM] == text;
  }

  /** The string that starts at `from`, up to its terminator. */
  method CString(buf: array<char>, from: nat, end: nat) returns (s: string)
    requires from <= end < buf.Length && buf[end] == '\0' && NulFree(buf[from..end])
    ensures s == buf[from..end]
  {
    var at := from;
    while buf[at] != '\0'
      invariant from <= at <= end
      decreases end - at
    {
      at := at + 1;
    }
    assert forall k :: from <= k < end ==> buf[k] == buf[from..end][k - from];
    s := buf[from..at];
  }

  /** The inner loop of grep: cuts the buffer at its newlines and prints the lines that match. */
  method GrepLines(buf: array<char>, end: nat, pattern: string, before: seq<string>,
                   ghost file: string, ghost seen0: seq<string>, ghost rest: string)
    returns (ls: nat, printed: seq<string>, ghost seen: seq<string>)
    requires end <= ROOM && buf.Length == ROOM + 1 && buf[end] == '\0' && NulFree(buf[..end])
    requires Scanned(file, seen0, buf[..end], rest) && before == Matching(seen0, pattern)
    modifies buf
    ensures ls <= end && Scanned(file, seen, buf[ls..end], rest) && printed == Matching(seen, pattern)
    ensures Break(buf[ls..end]) == end - ls && NulFree(buf[ls..end])
  {
    hide Seen;
    hide Break;
    hide Scanned;
    hide Contains;
    hide Matching;
    ls, printed, seen := 0, before, seen0;
    assert buf[0..end] == buf[..end];
    var nl := FindNewline(buf, ls, end);
    while nl < end
      invariant ls <= nl <= end && nl == ls + Break(buf[ls..end])
      invariant buf[end] == '\0' && NulFree(buf[ls..end])
      invariant Scanned(file, seen, buf[ls..end], rest) && printed == Matching(seen, pattern)
      decreases end - ls
    {
      ghost var text := buf[ls..end];
      LineDone(file, seen, text, rest);
      assert text[..nl - ls] == buf[ls..nl] && text[nl - ls + 1..] == buf[nl + 1..end];
      buf[nl] := '\0';
      assert buf[ls..nl] == text[..nl - ls] && buf[nl + 1..end] == text[nl - ls + 1..];
      var line := CString(buf, ls, nl);
      MatchingSnoc(seen, line, pattern);
      if Contains(line, pattern) { printed := printed + [line]; }
      seen := seen + [line];
      ls := nl + 1;
      nl := FindNewline(buf, ls, end);
    }
  }

  /** nr bytes have just been read behind the unfinished line `text`; `rest` is the file from
      the first of them on. */
  ghost predicate Loaded(f: File, buf: array<char>, pos: nat, nr: nat, text: string, rest: string)
    reads f, buf
  {
    && pos + nr <= ROOM && f.pos <= |f.data| && buf.Length == ROOM + 1
    && buf[..pos] == text && Break(text) == pos && NulFree(text)
    && nr <= |rest| && NulFree(rest) && buf[pos..pos + nr] == rest[..nr] && f.Rest() == rest[nr..]
    && (nr == 0 ==> rest == "" || pos == ROOM)
  }

  /** vfs_read(f, buf + pos, 255 - pos), in the condition of the outer loop. */
  method Refill(f: File, buf: array<char>, pos: nat, ghost text: string) returns (nr: nat)
    requires pos <= ROOM && f.pos <= |f.data| && buf.Length == ROOM + 1 && NulFree(f.Rest())
    requires buf[..pos] == text && Break(text) == pos && NulFree(text)
    modifies f`pos, buf
    ensures Loaded(f, buf, pos, nr, text, old(f.Rest()))
  {
    hide Break;
    nr := f.Read(buf, pos, ROOM - pos);
  }

  /** Counts the new bytes in and terminates the text. */
  method Extend(f: File, buf: array<char>, pos: nat, nr: nat, ghost text: string, ghost rest: string) returns (end: nat)
    requires Loaded(f, buf, pos, nr, text, rest)
    modifies buf
    ensures end == pos + nr <= ROOM && nr <= |rest| && buf[..end] == text + rest[..nr] && buf[end] == '\0' && NulFree(buf[..end])
    ensures f.pos <= |f.data| && f.Rest() == rest[nr..] && NulFree(rest[nr..])
  {
    hide Break;
    assert buf[..pos + nr] == text + rest[..nr];
    end := pos + nr;
    buf[end] := '\0';
  }

  /** Moves the unfinished line to the front. */
  method Keep(buf: array<char>, ls: nat, end: nat) returns (pos: nat)
    requires ls <= end <= ROOM && buf.Length == ROOM + 1
    modifies buf
    ensures pos == end - ls && buf[..pos] == old(buf[ls..end])
  {
    ShiftDown(buf, ls, end - ls);
    pos := end - ls;
  }

  /** What is in the buffer when the outer loop ends. */
  lemma Finished(f: File, buf: array<char>, pos: nat, seen: seq<string>, text: string, rest: string)
    requires Loaded(f, buf, pos, 0, text, rest) && Scanned(f.data, seen, text, rest)
    ensures pos <= ROOM && buf.Length == ROOM + 1 && buf[..pos] == text && |text| == pos && NulFree(text)
    ensures Seen(f.data) == if text == "" then seen else seen + [text]
  {
    hide Break;
    LastLine(f.data, seen, text, rest);
  }

  /** app_grep_main after the file is open: prints, in order, exactly the lines it sees that
      contain the pattern, however the reads are split; 0 if there are any, else 1. */
  method Grep(f: File, pattern: string) returns (printed: seq<string>, status: nat)
    requires f.pos == 0 && NulFree(f.data)
    modifies f
    ensures printed == Matching(Seen(f.data), pattern)
    ensures status == if printed == [] then 1 else 0
  {
    hide Seen;
    hide Break;
    hide Loaded;
    hide Scanned;
    hide Contains;
    hide Matching;
    var buf := new char[ROOM + 1](_ => '\0');
    var pos: nat := 0;
    printed := [];
    ghost var seen: seq<string> := [];
    Begin(f.data, pattern);
    assert buf[..0] == "" && f.data[0..] == f.data;
    ghost var text, rest := "", f.data;
    var nr := Refill(f, buf, pos, text);
    while nr > 0
      invariant fresh(buf) && Loaded(f, buf, pos, nr, text, rest)
      invariant Scanned(f.data, seen, text, rest) && printed == Matching(seen, pattern)
      decreases |rest|
    {
      var end := Extend(f, buf, pos, nr, text, rest);
      ReadMoves(f.data, seen, text, rest, nr);
      rest := rest[nr..];
      var ls;
      ls, printed, seen := GrepLines(buf, end, pattern, printed, f.data, seen, rest);
      text := buf[ls..end];
      pos := Keep(buf, ls, end);
      nr := Refill(f, buf, pos, text);
    }
    Finished(f, buf, pos, seen, text, rest);
    if pos > 0 {
      buf[pos] := '\0';
      var line := CString(buf, 0, pos);
      MatchingSnoc(seen, line, pattern);
      if Contains(line, pattern) { printed := printed + [line]; }
    }
    status := if |printed| > 0 then 0 else 1;
  }

  lemma Begin(file: string, pattern: string)
    ensures Scanned(file, [], "", file) && Matching([], pattern) == [] && Break("") == 0
  {
    assert "" + file == file && [] + Seen(file) == Seen(file);
  }

  // ----- head -----

  /** The first n of ls. */
  function First(ls: seq<string>, n: nat): seq<string> {
    if |ls| < n then ls else ls[..n]
  }

  /** The inner loop of head: prints completed lines until n have been printed. */
  method HeadLines(buf: array<char>, end: nat, n: nat, before: seq<string>,
                   ghost file: string, ghost rest: string)
    returns (ls: nat, printed: seq<string>)
    requires end <= ROOM && buf.Length == ROOM + 1 && buf[end] == '\0' && NulFree(buf[..end])
    requires Scanned(file, before, buf[..end], rest) && |before| <= n
    modifies buf
    ensures ls <= end && Scanned(file, printed, buf[ls..end], rest) && |printed| <= n
    ensures |printed| < n ==> Break(buf[ls..end]) == end - ls && NulFree(buf[ls..end])
  {
    hide Seen;
    hide Break;
    hide Scanned;
    ls, printed := 0, before;
    assert buf[0..end] == buf[..end];
    var nl := FindNewline(buf, ls, end);
    while nl < end && |printed| < n
      invariant ls <= nl <= end && nl == ls + Break(buf[ls..end])
      invariant buf[end] == '\0' && NulFree(buf[ls..end])
      invariant Scanned(file, printed, buf[ls..end], rest) && |printed| <= n
      decreases end - ls
    {
      ghost var text := buf[ls..end];
      LineDone(file, printed, text, rest);
      assert text[..nl - ls] == buf[ls..nl] && text[nl - ls + 1..] == buf[nl + 1..end];
      buf[nl] := '\0';
      assert buf[ls..nl] == text[..nl - ls] && buf[nl + 1..end] == text[nl - ls + 1..];
      var line := CString(buf, ls, nl);
      printed := printed + [line];
      ls := nl + 1;
      nl := FindNewline(buf, ls, end);
    }
  }

  lemma FirstOf(file: string, printed: seq<string>, text: string, rest: string)
    requires Scanned(file, printed, text, rest)
    ensures First(Seen(file), |printed|) == printed
  {
  }

  /** app_head_main after the file is open: the first n lines it sees, however the reads are
      split. n is positive there: anything else becomes 10. */
  method Head(f: File, n: nat) returns (printed: seq<string>)
    requires f.pos == 0 && NulFree(f.data) && n > 0
    modifies f
    ensures printed == First(Seen(f.data), n)
  {
    hide Seen;
    hide Break;
    hide Loaded;
    hide Scanned;
    var buf := new char[ROOM + 1](_ => '\0');
    var pos: nat := 0;
    printed := [];
    Begin(f.data, "");
    assert buf[..0] == "" && f.data[0..] == f.data;
    ghost var text, rest := "", f.data;
    var nr := Refill(f, buf, pos, text);
    while nr > 0
      invariant fresh(buf) && Loaded(f, buf, pos, nr, text, rest)
      invariant Scanned(f.data, printed, text, rest) && |printed| < n
      decreases |rest|
    {
      var end := Extend(f, buf, pos, nr, text, rest);
      ReadMoves(f.data, printed, text, rest, nr);
      rest := rest[nr..];
      var ls;
      ls, printed := HeadLines(buf, end, n, printed, f.data, rest);
      text := buf[ls..end];
      if |printed| >= n {
        FirstOf(f.data, printed, text, rest);
        return;
      }
      pos := Keep(buf, ls, end);
      nr := Refill(f, buf, pos, text);
    }
    Finished(f, buf, pos, printed, text, rest);
    if pos > 0 {
      buf[pos] := '\0';
      var line := CString(buf, 0, pos);
      printed := printed + [line];
    }
  }

  /** Each of the first n lines has at most 254 characters, or 255 if it is the n-th or the last. */
  predicate ShortFirst(ls: seq<string>, n: nat) {
    forall i :: 0 <= i < |ls| && i < n ==> |ls[i]| < ROOM || (|ls[i]| == ROOM && (i == n - 1 || i == |ls| - 1))
  }

  lemma ShortFirstTail(l: string, ls: seq<string>, n: nat)
    requires |l| < ROOM && n > 0
    ensures ShortFirst([l] + ls, n) <==> ShortFirst(ls, n - 1)
  {
    var m := [l] + ls;
    assert forall i :: 0 <= i < |ls| ==> m[i + 1] == ls[i];
    if ShortFirst(m, n) {
      forall i | 0 <= i < |ls| && i < n - 1
        ensures |ls[i]| < ROOM || (|ls[i]| == ROOM && (i == n - 2 || i == |ls| - 1))
      {
        assert |m[i + 1]| < ROOM || (|m[i + 1]| == ROOM && (i + 1 == n - 1 || i + 1 == |m| - 1));
      }
    }
  }

  lemma FirstCons(l: string, ls: seq<string>, n: nat)
    requires n > 0
    ensures First([l] + ls, n) == [l] + First(ls, n - 1)
  {
  }

  /** The first n lines seen are the file's first n lines if and only if those are short. */
  lemma {:induction false} FirstExactly(s: string, n: nat)
    requires n > 0
    ensures First(Seen(s), n) == First(Lines(s), n) <==> ShortFirst(Lines(s), n)
    decreases |s|
  {
    hide Break;
    hide ShortFirst;
    hide Seen;
    hide Lines;
    hide First;
    var b := Break(s);
    if s == "" || b == |s| < ROOM {
      OneLine(s);
      ShortIsShort(Lines(s), n);
    } else if b >= ROOM {
      LongLine(s, n);
    } else {
      var h, t := s[..b], s[b + 1..];
      FirstLine(s);
      ShortFirstTail(h, Lines(t), n);
      FirstCons(h, Lines(t), n);
      FirstCons(h, Seen(t), n);
      if n == 1 {
        FirstNone(Lines(t), Seen(t));
      } else {
        FirstExactly(t, n - 1);
        assert ([h] + First(Seen(t), n - 1))[1..] == First(Seen(t), n - 1);
        assert ([h] + First(Lines(t), n - 1))[1..] == First(Lines(t), n - 1);
      }
    }
  }

  lemma FirstNone(a: seq<string>, b: seq<string>)
    ensures First(a, 0) == First(b, 0) && ShortFirst(a, 0)
  {
  }

  lemma ShortIsShort(ls: seq<string>, n: nat)
    requires Short(ls)
    ensures ShortFirst(ls, n)
  {
  }

  lemma LongLine(s: string, n: nat)
    requires s != "" && Break(s) >= ROOM && n > 0
    ensures First(Seen(s), n) == First(Lines(s), n) <==> ShortFirst(Lines(s), n)
  {
    hide Break;
    var ls, b := Lines(s), Break(s);
    assert ls != [] && ls[0] == s[..b] && |ls[0]| == b;
    assert Seen(s) == [s[..ROOM]] && First(Seen(s), n) == [s[..ROOM]];
    if ShortFirst(ls, n) {
      assert b == ROOM && (n == 1 || |ls| == 1);
      assert First(ls, n) == [s[..ROOM]];
    }
    if First(ls, n) == [s[..ROOM]] {
      assert |First(ls, n)| == 1 && First(ls, n)[0] == ls[0];
    }
  }
}
