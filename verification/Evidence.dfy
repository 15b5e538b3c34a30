/** Replay of the on-device evidence log: the tail of the file is read into one buffer, split into lines
    in place, and the newest marker records are kept in a ring. */
module Evidence {
  import opened Common
  import opened CStrings
  import opened Slices

  const MARKER := "A90OBSREC "
  const TAIL_MAX: nat := 65536
  const LINES_MAX: nat := 64

  // ----- what should be replayed

  /** The newline-terminated lines of a text; an unterminated rest is not a line. */
  function Lines(text: string): seq<string> {
    var k := IndexOf(text, '\n');
    if k.None? || k.value >= |text| then [] else [text[..k.value]] + Lines(text[k.value + 1..])
  }

  function StripReturns(line: string): string {
    if line != "" && line[|line| - 1] == '\r' then StripReturns(line[..|line| - 1]) else line
  }

  /** A line's record: from the marker on, without trailing carriage returns. */
  function Record(line: string): seq<string> {
    var text := StripReturns(line);
    var m := Find(text, MARKER);
    if m.None? || m.value > |text| then [] else [text[m.value..]]
  }

  function Records(lines: seq<string>): seq<string> {
    if lines == [] then [] else Record(lines[0]) + Records(lines[1..])
  }

  function Newest(records: seq<string>): seq<string> {
    if |records| <= LINES_MAX then records else records[|records| - LINES_MAX..]
  }

  /** The text from the first line that starts at or after position `n`. */
  function SkipTo(text: string, n: nat): string
    requires n <= |text|
  {
    if n == 0 then text
    else
      var k := IndexOf(text[n - 1..], '\n');
      if k.None? || n + k.value > |text| then "" else text[n + k.value..]
  }

  /** Where the part of the file that is looked at begins: its last 65536 bytes, but the whole file when
      it is no more than one byte longer than that. */
  function TailStart(file: string): nat {
    if |file| <= TAIL_MAX + 1 then 0 else |file| - TAIL_MAX
  }

  // ----- what those mean

  /** Exactly the trailing carriage returns are cut off. */
  lemma {:induction false} StrippedIs(line: string)
    ensures var text := StripReturns(line);
            && text <= line && (forall i :: |text| <= i < |line| ==> line[i] == '\r')
            && (text == "" || text[|text| - 1] != '\r')
  {
    if line != "" && line[|line| - 1] == '\r' {
      StrippedIs(line[..|line| - 1]);
    }
  }

  /** A line's record is what follows the first marker in it, marker included; there is none without a marker. */
  lemma RecordIs(line: string)
    ensures var text := StripReturns(line);
            && (Record(line) == [] <==> forall i :: !HasAt(text, MARKER, i))
            && (Record(line) != [] ==> exists i: nat :: HasAt(text, MARKER, i) && Record(line) == [text[i..]]
                                         && forall j :: HasAt(text, MARKER, j) ==> i <= j)
  {
    hide StripReturns, Find;
    FindFirst(StripReturns(line), MARKER);
  }

  /** The records are those of just the lines that have one, in their order. */
  lemma {:induction false} RecordsAre(lines: seq<string>) returns (at: seq<nat>)
    ensures Picks(lines, Records(lines), at, RecordOf)
  {
    hide Record, Records, Picks;
    at := [];
    if lines == [] {
      NoRecords();
      PicksNone(lines, Records(lines), RecordOf);
    } else {
      var n, front := |lines| - 1, lines[..|lines| - 1];
      at := RecordsAre(front);
      assert lines == front + [lines[n]];
      RecordsSnoc(front, lines[n]);
      AtMostOne(lines[n]);
      assert Record(lines[n]) != [] ==> Record(lines[n]) == [Record(lines[n])[0]];
      assert Records(front) + [] == Records(front);
      PicksNext(front, Records(front), at, RecordOf, lines[n]);
      at := if Record(lines[n]) != [] then at + [n] else at;
    }
  }

  function RecordOf(line: string): Option<string> {
    if Record(line) == [] then None else Some(Record(line)[0])
  }

  lemma NoRecords()
    ensures Records([]) == []
  {}

  lemma {:induction false} RecordsSnoc(lines: seq<string>, line: string)
    ensures Records(lines + [line]) == Records(lines) + Record(line)
  {
    hide Record;
    if lines == [] {
      assert lines + [line] == [line];
      assert [line][1..] == [];
    } else {
      RecordsSnoc(lines[1..], line);
      assert (lines + [line])[1..] == lines[1..] + [line];
    }
  }

  lemma AtMostOne(line: string)
    ensures |Record(line)| <= 1
  {}

  /** Each line with its newline. */
  function Joined(lines: seq<string>): string {
    if lines == [] then "" else lines[0] + "\n" + Joined(lines[1..])
  }

  /** Splitting loses nothing: the lines with their newlines and an unterminated rest are the text. */
  lemma {:induction false} LinesAre(text: string) returns (rest: string)
    ensures text == Joined(Lines(text)) + rest && '\n' !in rest
    ensures forall i :: 0 <= i < |Lines(text)| ==> '\n' !in Lines(text)[i]
    decreases |text|
  {
    hide IndexOf, Lines, Joined;
    IndexOfFirst(text, '\n');
    var k := IndexOf(text, '\n');
    if k.None? {
      LinesNone(text);
      rest := text;
    } else {
      rest := LinesAre(text[k.value + 1..]);
      LinesFirst(text, k.value);
      JoinedFirst(text[..k.value], Lines(text[k.value + 1..]));
      assert text == text[..k.value] + "\n" + text[k.value + 1..];
    }
  }

  lemma LinesNone(text: string)
    requires IndexOf(text, '\n').None?
    ensures Lines(text) == [] && Joined([]) == ""
  {}

  lemma LinesFirst(text: string, k: nat)
    requires IndexOf(text, '\n') == Some(k) && k < |text|
    ensures Lines(text) == [text[..k]] + Lines(text[k + 1..])
  {}

  lemma JoinedFirst(line: string, lines: seq<string>)
    ensures Joined([line] + lines) == line + "\n" + Joined(lines)
  {
    assert ([line] + lines)[1..] == lines;
  }

  // ----- the same, by the lines of the whole file

  datatype Line = Line(start: nat, text: string)

  /** The lines of a text that begins at offset `base` of the file. */
  function LinesAt(text: string, base: nat): seq<Line> {
    var k := IndexOf(text, '\n');
    if k.None? || k.value >= |text| then []
    else [Line(base, text[..k.value])] + LinesAt(text[k.value + 1..], base + k.value + 1)
  }

  /** The texts of the lines that start at or after an offset. */
  function StartingFrom(lines: seq<Line>, offset: nat): seq<string> {
    if lines == [] then []
    else (if lines[0].start >= offset then [lines[0].text] else []) + StartingFrom(lines[1..], offset)
  }

  /** These are the lines, each with the place where it starts. */
  lemma {:induction false} LinesAtAre(text: string, base: nat)
    ensures |LinesAt(text, base)| == |Lines(text)|
    ensures forall i :: 0 <= i < |Lines(text)| ==>
              LinesAt(text, base)[i] == Line(base + |Joined(Lines(text)[..i])|, Lines(text)[i])
    decreases |text|
  {
    hide IndexOf, Lines, LinesAt, Joined;
    IndexOfFirst(text, '\n');
    var k := IndexOf(text, '\n');
    if k.None? {
      LinesNone(text);
      LinesAtNone(text, base);
    } else {
      var rest, lines := text[k.value + 1..], Lines(text);
      var first, later, from := text[..k.value], Lines(rest), base + k.value + 1;
      LinesAtAre(rest, from);
      LinesFirst(text, k.value);
      LinesAtFirst(text, base, k.value);
      forall i | 0 <= i < |lines|
        ensures LinesAt(text, base)[i] == Line(base + |Joined(lines[..i])|, lines[i])
      {
        if i == 0 {
          assert lines[..0] == [];
          JoinedNone();
        } else {
          assert lines[..i] == [first] + later[..i - 1];
          JoinedFirst(first, later[..i - 1]);
          assert LinesAt(rest, from)[i - 1] == Line(from + |Joined(later[..i - 1])|, later[i - 1]);
        }
      }
    }
  }

  lemma JoinedNone()
    ensures Joined([]) == ""
  {}

  lemma LinesAtNone(text: string, base: nat)
    requires IndexOf(text, '\n').None?
    ensures LinesAt(text, base) == []
  {}

  lemma LinesAtFirst(text: string, base: nat, k: nat)
    requires IndexOf(text, '\n') == Some(k) && k < |text|
    ensures LinesAt(text, base) == [Line(base, text[..k])] + LinesAt(text[k + 1..], base + k + 1)
  {}

  /** Of lines in the order of their places, those from the first that starts late enough on are kept. */
  lemma {:induction false} StartingFromIs(lines: seq<Line>, offset: nat) returns (k: nat)
    requires forall i, j :: 0 <= i < j < |lines| ==> lines[i].start <= lines[j].start
    ensures k <= |lines| && (forall i :: 0 <= i < |lines| ==> (i < k <==> lines[i].start < offset))
    ensures StartingFrom(lines, offset) == Texts(lines[k..])
  {
    hide Texts;
    k := 0;
    if lines == [] {
      TextsNone();
    } else {
      var first, rest := lines[0], lines[1..];
      assert forall i :: 0 < i < |lines| ==> lines[i] == rest[i - 1];
      k := StartingFromIs(rest, offset);
      if first.start < offset {
        assert lines[k + 1..] == rest[k..];
        k := k + 1;
      } else {
        assert lines[0..] == [first] + rest && rest[0..] == rest;
        TextsFirst(first, rest);
      }
    }
  }

  function Texts(lines: seq<Line>): seq<string> {
    seq(|lines|, i requires 0 <= i < |lines| => lines[i].text)
  }

  lemma TextsNone()
    ensures Texts([]) == []
  {}

  lemma TextsFirst(first: Line, rest: seq<Line>)
    ensures Texts([first] + rest) == [first.text] + Texts(rest)
  {}

  lemma {:induction false} AllLinesKept(text: string, base: nat, offset: nat)
    requires offset <= base
    ensures StartingFrom(LinesAt(text, base), offset) == Lines(text)
    decreases |text|
  {
    var k := IndexOf(text, '\n');
    if k.Some? && k.value < |text| {
      AllLinesKept(text[k.value + 1..], base + k.value + 1, offset);
    }
  }

  /** No complete line lying wholly in the tail is lost by skipping to a line start, and no line that
      begins before the tail is taken. */
  lemma {:induction false} SkippingKeepsTailLines(text: string, base: nat, n: nat)
    requires n <= |text|
    ensures StartingFrom(LinesAt(text, base), base + n) == Lines(SkipTo(text, n))
    decreases |text|
  {
    hide LinesAt, StartingFrom, Lines, SkipTo, IndexOf;
    IndexOfFirst(text, '\n');
    var k := IndexOf(text, '\n');
    if n == 0 {
      AllLinesKept(text, base, base);
      assert SkipTo(text, 0) == text by {
        SkipNothing(text);
      }
    } else if k.None? {
      NoLines(text, base, n);
    } else if k.value >= n - 1 {
      DropFirst(text, base, k.value, base + n);
      SkipInFirstLine(text, n, k.value);
      AllLinesKept(text[k.value + 1..], base + k.value + 1, base + n);
    } else {
      DropFirst(text, base, k.value, base + n);
      SkipPastFirstLine(text, n, k.value);
      SkippingKeepsTailLines(text[k.value + 1..], base + k.value + 1, n - k.value - 1);
    }
  }

  lemma SkipNothing(text: string)
    ensures SkipTo(text, 0) == text
  {}

  lemma NoLines(text: string, base: nat, n: nat)
    requires 0 < n <= |text| && '\n' !in text
    ensures StartingFrom(LinesAt(text, base), base + n) == Lines(SkipTo(text, n)) == []
  {
    IndexOfFirst(text, '\n');
    IndexOfFirst(text[n - 1..], '\n');
    assert SkipTo(text, n) == "";
  }

  lemma DropFirst(text: string, base: nat, k: nat, offset: nat)
    requires k < |text| && IndexOf(text, '\n') == Some(k) && base < offset
    ensures StartingFrom(LinesAt(text, base), offset) ==
            StartingFrom(LinesAt(text[k + 1..], base + k + 1), offset)
  {
    var rest := LinesAt(text[k + 1..], base + k + 1);
    assert LinesAt(text, base)[1..] == rest;
  }

  lemma SkipInFirstLine(text: string, n: nat, k: nat)
    requires 0 < n <= |text| && n - 1 <= k < |text| && text[k] == '\n' && '\n' !in text[..k]
    ensures SkipTo(text, n) == text[k + 1..]
  {
    var t := text[n - 1..];
    assert t[..k - (n - 1)] == text[n - 1..k];
    IndexOfIs(t, '\n', k - (n - 1));
  }

  lemma SkipPastFirstLine(text: string, n: nat, k: nat)
    requires k + 1 < n <= |text|
    ensures SkipTo(text, n) == SkipTo(text[k + 1..], n - k - 1)
  {
    var rest := text[k + 1..];
    assert rest[n - k - 2..] == text[n - 1..];
  }

  /** What is replayed: the newest 64 records among the complete lines of the tail, in file order. */
  lemma ReplayedLines(file: string)
    ensures Records(Lines(SkipTo(file, TailStart(file)))) == Records(StartingFrom(LinesAt(file, 0), TailStart(file)))
  {
    SkippingKeepsTailLines(file, 0, TailStart(file));
  }

  // ----- the source

  /** lseek and the read loop: the buffer holds the file from `start` on. */
  method ReadTail(file: string, start: nat, limit: nat, buffer: array<char>, quiet: bool)
    returns (ok: bool, consumed: nat)
    requires start <= |file| && limit < buffer.Length && |file| - start <= limit
    modifies buffer
    ensures ok ==> consumed == |file| - start && buffer[..consumed] == file[start..]
    ensures quiet ==> ok
  {
    consumed := 0;
    while consumed < limit && start + consumed < |file|
      invariant consumed <= |file| - start && buffer[..consumed] == file[start..start + consumed]
    {
      var failed: bool := *;
      if failed && !quiet {
        return false, consumed;
      }
      var got: int := *;
      var room := |file| - start - consumed;
      got := if 1 <= got <= room then got else room;
      Copy(buffer, consumed, file[start + consumed..start + consumed + got]);
      assert buffer[..consumed + got] == buffer[..consumed] + buffer[consumed..consumed + got];
      assert file[start..start + consumed + got] ==
          file[start..start + consumed] + file[start + consumed..start + consumed + got];
      consumed := consumed + got;
    }
    ok := true;
  }

  lemma CStringStable(a: string, b: string, p: nat, q: nat)
    requires p <= |a| && p + |CString(a[p..])| < q <= |a| == |b| && a[..q] == b[..q]
    ensures CString(b[p..]) == CString(a[p..])
  {
    var r := CString(a[p..]);
    CStringPrefix(a[p..]);
    assert a[p..][|r|] == a[p + |r|] == b[p + |r|] == NUL;
    assert r == a[p..][..|r|];
    forall i | 0 <= i < |r|
      ensures b[p..][i] == r[i]
    {
      assert a[p + i] == a[..q][p + i] == b[..q][p + i];
    }
    CStringIs(b[p..], r);
  }

  lemma {:induction false} CStringIs(s: string, r: string)
    requires |r| < |s| && r == s[..|r|] && NUL !in r && s[|r|] == NUL
    ensures CString(s) == r
  {
    if r != "" {
      assert s[0] == r[0];
      CStringIs(s[1..], r[1..]);
    }
  }

  /** A stored pointer: the C string at `p` is this record, and its terminator lies before `limit`. */
  ghost predicate PointsAt(buffer: seq<char>, p: nat, record: string, limit: nat) {
    p + |record| < limit <= |buffer| && CString(buffer[p..]) == record
  }

  /** The newest pointers are in the ring, each at its index modulo the ring size. */
  ghost predicate InRing(buffer: seq<char>, ring: seq<nat>, records: seq<string>, limit: nat) {
    && |ring| == LINES_MAX
    && forall j :: 0 <= j < |records| && |records| - LINES_MAX <= j ==>
         PointsAt(buffer, ring[j % LINES_MAX], records[j], limit)
  }

  lemma RingKept(a: seq<char>, b: seq<char>, ring: seq<nat>, records: seq<string>, limit: nat, limit': nat)
    requires InRing(a, ring, records, limit) && |a| == |b| && limit <= limit' <= |b| && a[..limit] == b[..limit]
    requires limit <= |a|
    ensures InRing(b, ring, records, limit')
  {
    forall j | 0 <= j < |records| && |records| - LINES_MAX <= j
      ensures PointsAt(b, ring[j % LINES_MAX], records[j], limit')
    {
      assert PointsAt(a, ring[j % LINES_MAX], records[j], limit);
      CStringStable(a, b, ring[j % LINES_MAX], limit);
    }
  }

  lemma RingPushed(buffer: seq<char>, ring: seq<nat>, records: seq<string>, limit: nat, p: nat, record: string)
    requires InRing(buffer, ring, records, limit) && PointsAt(buffer, p, record, limit)
    ensures InRing(buffer, ring[|records| % LINES_MAX := p], records + [record], limit)
  {
    var ring', records' := ring[|records| % LINES_MAX := p], records + [record];
    forall j | 0 <= j < |records'| && |records'| - LINES_MAX <= j
      ensures PointsAt(buffer, ring'[j % LINES_MAX], records'[j], limit)
    {
      if j < |records| {
        assert j % LINES_MAX != |records| % LINES_MAX;
        assert PointsAt(buffer, ring[j % LINES_MAX], records[j], limit);
      }
    }
  }

  /** Terminates the line at its newline and at its trailing carriage returns. */
  method TerminateLine(buffer: array<char>, cursor: nat, end: nat)
    requires cursor <= end < buffer.Length && NUL !in buffer[cursor..end]
    modifies buffer
    ensures buffer[..cursor] == old(buffer[..cursor]) && buffer[end + 1..] == old(buffer[end + 1..])
    ensures CString(buffer[cursor..]) == StripReturns(old(buffer[cursor..end]))
    ensures |CString(buffer[cursor..])| <= end - cursor
  {
    hide CString, StripReturns;
    ghost var line := buffer[cursor..end];
    assert line[..|line|] == line;
    buffer[end] := NUL;
    var length := end - cursor;
    while length > 0 && buffer[cursor + length - 1] == '\r'
      invariant 0 <= length <= end - cursor && buffer[cursor + length] == NUL
      invariant buffer[..cursor] == old(buffer[..cursor]) && buffer[end + 1..] == old(buffer[end + 1..])
      invariant buffer[cursor..cursor + length] == line[..length]
      invariant StripReturns(line[..length]) == StripReturns(line)
    {
      assert buffer[cursor..cursor + length][length - 1] == line[..length][length - 1];
      StripOne(line[..length]);
      length := length - 1;
      assert line[..length + 1][..length] == line[..length];
      buffer[cursor + length] := NUL;
      assert buffer[cursor..cursor + length] == line[..length];
    }
    assert length > 0 ==> buffer[cursor..cursor + length][length - 1] == line[..length][length - 1];
    StripNone(line[..length]);
    var s := buffer[cursor..];
    assert s[..length] == buffer[cursor..cursor + length];
    CStringIs(s, line[..length]);
  }

  lemma StripOne(line: string)
    requires line != "" && line[|line| - 1] == '\r'
    ensures StripReturns(line) == StripReturns(line[..|line| - 1])
  {}

  lemma StripNone(line: string)
    requires line == "" || line[|line| - 1] != '\r'
    ensures StripReturns(line) == line
  {}

  lemma LinesStep(text: string, k: nat)
    requires k < |text| && IndexOf(text, '\n') == Some(k)
    ensures Records(Lines(text)) == Record(text[..k]) + Records(Lines(text[k + 1..]))
  {
    hide IndexOf, Record;
    var rest := Lines(text[k + 1..]);
    assert Lines(text) == [text[..k]] + rest;
    assert Lines(text)[0] == text[..k] && Lines(text)[1..] == rest;
  }

  lemma LinesEnd(text: string)
    requires IndexOf(text, '\n').None?
    ensures Records(Lines(text)) == []
  {}

  /** The rest of the buffer still holds the unread rest of the text. */
  ghost predicate Unread(buffer: seq<char>, cursor: nat, rest: string) {
    cursor + |rest| < |buffer| && buffer[cursor..cursor + |rest|] == rest && buffer[cursor + |rest|] == NUL
        && NUL !in rest
  }

  lemma UnreadIsCString(buffer: seq<char>, cursor: nat, rest: string)
    requires Unread(buffer, cursor, rest)
    ensures cursor < |buffer| && CString(buffer[cursor..]) == rest && (buffer[cursor] == NUL <==> rest == "")
  {
    assert buffer[cursor..][..|rest|] == rest;
    CStringIs(buffer[cursor..], rest);
  }

  /** One line: terminated in place, searched, and its record pushed on the ring. */
  method TakeLine(buffer: array<char>, ring: array<nat>, seen: nat, cursor: nat, k: nat,
                  ghost rest: string, ghost records: seq<string>) returns (seen': nat)
    requires ring.Length == LINES_MAX && buffer as object != ring
    requires Unread(buffer[..], cursor, rest) && k < |rest| && IndexOf(rest, '\n') == Some(k)
    requires seen == |records| && InRing(buffer[..], ring[..], records, cursor)
    modifies buffer, ring
    ensures Unread(buffer[..], cursor + k + 1, rest[k + 1..])
    ensures seen' == |records + Record(rest[..k])|
    ensures InRing(buffer[..], ring[..], records + Record(rest[..k]), cursor + k + 1)
  {
    hide IndexOf, StripReturns, Find, CString, InRing;
    ghost var a := buffer[..];
    assert a[cursor..cursor + k] == rest[..k];
    assert buffer[cursor..cursor + k] == a[cursor..cursor + k];
    TerminateLine(buffer, cursor, cursor + k);
    ghost var b := buffer[..];
    assert a[..cursor] == b[..cursor] by {
      assert a[..cursor] == old(buffer[..cursor]);
      assert b[..cursor] == buffer[..cursor];
    }
    LaterUnread(a, b, cursor, k, rest) by {
      assert a[cursor + k + 1..] == old(buffer[cursor + k + 1..]);
      assert b[cursor + k + 1..] == buffer[cursor + k + 1..];
    }
    RingKept(a, b, ring[..], records, cursor, cursor + k + 1);
    var text := CString(buffer[cursor..]);
    assert b[cursor..] == buffer[cursor..];
    var m := Find(text, MARKER);
    FindFirst(text, MARKER);
    seen' := seen;
    if m.Some? {
      PointerIntoLine(b, cursor, m.value, cursor + k + 1);
      var pointer: nat := cursor + m.value;
      RingPushed(b, ring[..], records, cursor + k + 1, pointer, text[m.value..]);
      ghost var before := ring[..];
      ring[seen % LINES_MAX] := pointer;
      assert ring[..] == before[seen % LINES_MAX := pointer];
      seen' := seen + 1;
    } else {
      assert records + [] == records;
    }
  }

  lemma LaterUnread(a: seq<char>, b: seq<char>, cursor: nat, k: nat, rest: string)
    requires Unread(a, cursor, rest) && k < |rest| && |a| == |b| && a[cursor + k + 1..] == b[cursor + k + 1..]
    ensures Unread(b, cursor + k + 1, rest[k + 1..])
  {
    var c := cursor + k + 1;
    forall i | c <= i < |a|
      ensures a[i] == b[i]
    {
      assert a[i] == a[c..][i - c] && b[i] == b[c..][i - c];
    }
    assert b[c..c + |rest| - k - 1] == a[c..c + |rest| - k - 1];
    assert rest[k + 1..] == a[cursor..cursor + |rest|][k + 1..];
  }

  lemma PointerIntoLine(b: seq<char>, cursor: nat, m: nat, limit: nat)
    requires cursor <= |b| && cursor + |CString(b[cursor..])| < limit <= |b| && m <= |CString(b[cursor..])|
    ensures PointsAt(b, cursor + m, CString(b[cursor..])[m..], limit)
  {
    var text := CString(b[cursor..]);
    CStringPrefix(b[cursor..]);
    var s := b[cursor + m..];
    assert s[..|text| - m] == text[m..];
    assert s[|text| - m] == b[cursor..][|text|];
    CStringIs(s, text[m..]);
  }

  method SplitLines(buffer: array<char>, ring: array<nat>, start: nat, ghost text: string)
    returns (seen: nat, ghost records: seq<string>)
    requires ring.Length == LINES_MAX && buffer as object != ring && Unread(buffer[..], start, text)
    modifies buffer, ring
    ensures records == Records(Lines(text)) && seen == |records|
    ensures InRing(buffer[..], ring[..], records, buffer.Length)
  {
    hide IndexOf, Lines, Record, Records, CString, InRing, Unread;
    seen, records := 0, [];
    var cursor := start;
    ghost var rest := text;
    EmptyRing(buffer[..], ring[..], start);
    UnreadIsCString(buffer[..], cursor, rest);
    assert [] + Records(Lines(rest)) == Records(Lines(text));
    while buffer[cursor] != NUL
      invariant 0 <= cursor < buffer.Length && Unread(buffer[..], cursor, rest)
      invariant seen == |records| && InRing(buffer[..], ring[..], records, cursor)
      invariant records + Records(Lines(rest)) == Records(Lines(text))
      decreases |rest|
    {
      UnreadIsCString(buffer[..], cursor, rest);
      assert buffer[..][cursor..] == buffer[cursor..];
      var k := IndexOf(CString(buffer[cursor..]), '\n');
      IndexOfFirst(rest, '\n');
      if k.None? {
        LinesEnd(rest);
        break;
      }
      LinesStep(rest, k.value);
      seen := TakeLine(buffer, ring, seen, cursor, k.value, rest, records);
      records := records + Record(rest[..k.value]);
      rest := rest[k.value + 1..];
      cursor := cursor + k.value + 1;
      UnreadIsCString(buffer[..], cursor, rest);
    }
    UnreadIsCString(buffer[..], cursor, rest);
    if buffer[cursor] == NUL {
      IndexOfFirst(rest, '\n');
      LinesEnd(rest);
    }
    RingKept(buffer[..], buffer[..], ring[..], records, cursor, buffer.Length);
  }

  lemma EmptyRing(buffer: seq<char>, ring: seq<nat>, limit: nat)
    requires |ring| == LINES_MAX
    ensures InRing(buffer, ring, [], limit)
  {}

  /** Hands the kept records to the log, oldest first. */
  method Emit(buffer: array<char>, ring: array<nat>, seen: nat, ghost records: seq<string>) returns (out: seq<string>)
    requires ring.Length == LINES_MAX && seen == |records| && InRing(buffer[..], ring[..], records, buffer.Length)
    ensures out == Newest(records)
  {
    hide InRing, CString;
    var emitted := if seen < LINES_MAX then seen else LINES_MAX;
    var first := seen - emitted;
    out := [];
    assert records[first..first] == [];
    for index := 0 to emitted
      invariant out == records[first..first + index]
    {
      var slot := (first + index) % LINES_MAX;
      RingHolds(buffer[..], ring[..], records, buffer.Length, first + index);
      var p := ring[slot];
      assert buffer[..][p..] == buffer[p..];
      out := out + [CString(buffer[p..])];
      SliceGrows(records, first, first + index);
    }
    assert records[first..first + emitted] == Newest(records);
  }

  lemma RingHolds(buffer: seq<char>, ring: seq<nat>, records: seq<string>, limit: nat, j: nat)
    requires InRing(buffer, ring, records, limit) && j < |records| <= j + LINES_MAX
    ensures |ring| == LINES_MAX && PointsAt(buffer, ring[j % LINES_MAX], records[j], limit)
  {}

  /** The text the source looks at, for any file. */
  function Looked(file: string): string {
    if |file| <= TAIL_MAX + 1 then CString(file)
    else
      var window := CString(file[|file| - TAIL_MAX - 1..]);
      if window == "" then "" else SkipTo(window, 1)
  }

  /** Without NUL bytes that is the tail from its first line start on. */
  lemma LookedAtPlain(file: string)
    requires NUL !in file
    ensures Looked(file) == SkipTo(file, TailStart(file))
  {
    hide CString, SkipTo;
    if |file| <= TAIL_MAX + 1 {
      CStringOfPlain(file);
      SkipNothing(file);
    } else {
      var start := |file| - TAIL_MAX - 1;
      CStringOfPlain(file[start..]);
      SkipInWindow(file, start);
    }
  }

  /** A line start after a position is the same in the text from there on. */
  lemma SkipInWindow(text: string, start: nat)
    requires start < |text|
    ensures SkipTo(text[start..], 1) == SkipTo(text, start + 1)
  {
    hide IndexOf;
    var window := text[start..];
    assert window[0..] == window;
    var k := IndexOf(window, '\n');
    if k.Some? && 1 + k.value <= |window| {
      assert window[1 + k.value..] == text[start + 1 + k.value..];
    }
  }

  /** a90_auto_handoff_replay_ondevice_evidence: the number of records handed to the log, or an error. */
  method Replay(file: string, readable: bool, quiet: bool) returns (rc: int, out: seq<string>)
    ensures rc < 0 || rc == |out|
    ensures rc >= 0 ==> out == Newest(Records(Lines(Looked(file))))
    ensures rc >= 0 && NUL !in file ==> out == Newest(Records(StartingFrom(LinesAt(file, 0), TailStart(file))))
    ensures (readable && quiet ==> rc >= 0) && (!readable ==> rc == ENOENT && out == [])
  {
    hide Looked, Records, Lines, StartingFrom, LinesAt, SkipTo, Newest;
    out := [];
    if !readable {
      return ENOENT, out;
    }
    var start, limit := 0, TAIL_MAX;
    if |file| > TAIL_MAX {
      start := |file| - TAIL_MAX - 1;
      limit := limit + 1;
    }
    var buffer := new char[TAIL_MAX + 2];
    var ok, consumed := ReadTail(file, start, limit, buffer, quiet);
    if !ok {
      return EIO, out;
    }
    buffer[consumed] := NUL;
    var cursor := FirstLine(buffer, start, consumed, file);
    var ring := new nat[LINES_MAX];
    ghost var records;
    var seen;
    seen, records := SplitLines(buffer, ring, cursor, Looked(file));
    out := Emit(buffer, ring, seen, records);
    rc := |out|;
    if NUL !in file {
      LookedAtPlain(file);
      ReplayedLines(file);
    }
  }

  lemma WindowText(buffer: seq<char>, consumed: nat, content: string)
    requires consumed < |buffer| && buffer[consumed] == NUL && consumed == |content| && buffer[..consumed] == content
    ensures CString(buffer) == CString(content) && Unread(buffer, 0, CString(content))
  {
    var w := CString(content);
    CStringPrefix(content);
    assert buffer[..|w|] == content[..|w|] by {
      assert buffer[..|w|] == buffer[..consumed][..|w|];
    }
    assert |w| < consumed ==> buffer[|w|] == buffer[..consumed][|w|];
    CStringIs(buffer, w);
    assert buffer[0..0 + |w|] == w;
  }

  lemma UnreadLater(buffer: seq<char>, window: string, c: nat)
    requires Unread(buffer, 0, window) && c <= |window|
    ensures Unread(buffer, c, window[c..])
  {
    assert buffer[c..c + |window[c..]|] == buffer[0..|window|][c..];
  }

  /** Where splitting starts: past the cut-off first line when the read did not start at the beginning. */
  method FirstLine(buffer: array<char>, start: nat, consumed: nat, ghost file: string) returns (cursor: nat)
    requires consumed < buffer.Length && buffer[consumed] == NUL && start <= |file|
    requires start == (if |file| > TAIL_MAX then |file| - TAIL_MAX - 1 else 0)
    requires consumed == |file| - start && buffer[..consumed] == file[start..]
    ensures Unread(buffer[..], cursor, Looked(file))
  {
    cursor := 0;
    var window := CString(buffer[..]);
    WindowText(buffer[..], consumed, file[start..]);
    if start > 0 {
      assert window[0..] == window;
      IndexOfFirst(window, '\n');
      UnreadIsCString(buffer[..], 0, window);
      if buffer[0] == '\n' {
        cursor := 1;
        IndexOfIs(window, '\n', 0);
        UnreadLater(buffer[..], window, 1);
      } else {
        var k := IndexOf(window, '\n');
        if k.None? {
          cursor := consumed;
          assert Looked(file) == "";
        } else {
          cursor := k.value + 1;
          UnreadLater(buffer[..], window, cursor);
        }
      }
    } else {
      assert file[0..] == file;
      assert |file| == TAIL_MAX + 1 || |file| <= TAIL_MAX;
    }
  }
}
