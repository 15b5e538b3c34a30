/** The cmdv1x decoder: an argument vector arrives as length-prefixed hex tokens and is decoded into
    NUL-terminated strings in one shared buffer. */
module CmdProto {
  import opened Common
  import opened Bits

  const SIZE_MAX: nat := 0xffff_ffff_ffff_ffff
  const MAX_ARGS: nat := 32
  const BUFFER_BYTES: nat := 4096

  type Arg = seq<Byte>

  // ----- what a token says

  predicate IsDigit(ch: char) {
    '0' <= ch <= '9'
  }

  function HexValue(ch: char): (v: int)
    ensures -1 <= v < 16
  {
    if '0' <= ch <= '9' then ch as int - '0' as int
    else if 'a' <= ch <= 'f' then ch as int - 'a' as int + 10
    else if 'A' <= ch <= 'F' then ch as int - 'A' as int + 10
    else -1
  }

  const LOWER := "0123456789abcdef"
  const UPPER := "0123456789ABCDEF"

  /** A hex digit's value is its place in the alphabet, in either case; nothing else has one. */
  lemma HexAlphabet(ch: char, v: nat)
    requires v < 16
    ensures HexValue(ch) == v <==> ch == LOWER[v] || ch == UPPER[v]
  {}

  predicate AllDigits(s: string) {
    forall i :: 0 <= i < |s| ==> IsDigit(s[i])
  }

  function Decimal(s: string): nat
    requires AllDigits(s)
  {
    if s == "" then 0 else 10 * Decimal(s[..|s| - 1]) + HexValue(s[|s| - 1])
  }

  /** Two hex digits, of either case, spell `b`. */
  predicate PairSpells(high: char, low: char, b: Byte) {
    HexValue(high) >= 0 && HexValue(low) >= 0 && 16 * HexValue(high) + HexValue(low) == b
  }

  predicate HexSpells(hex: string, arg: Arg) {
    |hex| == 2 * |arg| && forall i :: 0 <= i < |arg| ==> PairSpells(hex[2 * i], hex[2 * i + 1], arg[i])
  }

  /** `token` is the length of `arg` in decimal, a colon at position `colon`, and the bytes of `arg` in hex. */
  predicate EncodesAt(token: string, colon: nat, arg: Arg) {
    && 0 < colon < |token| && token[colon] == ':'
    && AllDigits(token[..colon]) && Decimal(token[..colon]) == |arg|
    && HexSpells(token[colon + 1..], arg)
    && 0 !in arg
  }

  ghost predicate Encodes(token: string, arg: Arg) {
    exists colon: nat :: EncodesAt(token, colon, arg)
  }

  // ----- what the decoder makes of it

  datatype Result<+T> = Ok(value: T) | Error(code: int)

  /** How many digits the token starts with. */
  function Digits(token: string): (n: nat)
    ensures n <= |token| && AllDigits(token[..n]) && (n < |token| ==> !IsDigit(token[n]))
  {
    if token == "" || !IsDigit(token[0]) then 0
    else
      var n := 1 + Digits(token[1..]);
      assert token[..n] == [token[0]] + token[1..][..n - 1];
      n
  }

  /** The first `n` bytes, if each is two hex digits and none is zero. */
  function Unhex(hex: string, n: nat): (r: Option<Arg>)
    requires 2 * n <= |hex|
    ensures r.Some? ==> |r.value| == n
  {
    if n == 0 then Some([])
    else
      var before := Unhex(hex, n - 1);
      var high, low := HexValue(hex[2 * n - 2]), HexValue(hex[2 * n - 1]);
      if before.None? || high < 0 || low < 0 || 16 * high + low == 0 then None
      else Some(before.value + [16 * high + low])
  }

  /** The outcome for one token when `room` bytes of the buffer are free. */
  function Judge(token: string, room: nat): (r: Result<Arg>)
    ensures r.Ok? ==> |r.value| < room
    ensures r.Error? ==> r.code < 0
  {
    var n := Digits(token);
    if n == 0 then Error(EINVAL)
    else
      var length := Decimal(token[..n]);
      if length > SIZE_MAX then Error(EOVERFLOW)
      else if n == |token| || token[n] != ':' then Error(EINVAL)
      else
        var hex := token[n + 1..];
        if length > SIZE_MAX / 2 || |hex| != length * 2 then Error(EINVAL)
        else if length + 1 > room then Error(E2BIG)
        else
          var arg := Unhex(hex, length);
          if arg.None? then Error(EINVAL) else Ok(arg.value)
  }

  lemma {:induction false} UnhexIs(hex: string, arg: Arg, n: nat)
    requires 2 * n <= |hex| && n <= |arg|
    ensures Unhex(hex, n) == Some(arg[..n]) <==>
            0 !in arg[..n] && forall i :: 0 <= i < n ==> PairSpells(hex[2 * i], hex[2 * i + 1], arg[i])
  {
    if n > 0 {
      UnhexIs(hex, arg, n - 1);
      var high, low := HexValue(hex[2 * n - 2]), HexValue(hex[2 * n - 1]);
      assert arg[..n] == arg[..n - 1] + [arg[n - 1]];
      assert hex[2 * (n - 1)] == hex[2 * n - 2] && hex[2 * (n - 1) + 1] == hex[2 * n - 1];
      if Unhex(hex, n) == Some(arg[..n]) {
        var before := Unhex(hex, n - 1);
        assert arg[..n] == before.value + [16 * high + low];
        assert arg[..n][..n - 1] == before.value && arg[..n][n - 1] == 16 * high + low;
      }
    }
  }

  lemma ColonEndsDigits(token: string, colon: nat)
    requires colon < |token| && token[colon] == ':' && AllDigits(token[..colon])
    ensures Digits(token) == colon
  {
    var n := Digits(token);
    assert forall i :: 0 <= i < n ==> IsDigit(token[..n][i]) && token[..n][i] == token[i];
    assert forall i :: 0 <= i < colon ==> IsDigit(token[..colon][i]) && token[..colon][i] == token[i];
  }

  /** A token is accepted as `arg` exactly when it encodes `arg` and there is room for it and its NUL. */
  lemma Accepted(token: string, room: nat, arg: Arg)
    requires room <= BUFFER_BYTES
    ensures Judge(token, room) == Ok(arg) <==> Encodes(token, arg) && |arg| < room
  {
    if Judge(token, room) == Ok(arg) {
      var n := Digits(token);
      UnhexIs(token[n + 1..], arg, |arg|);
      assert arg[..|arg|] == arg;
      assert EncodesAt(token, n, arg);
    }
    if Encodes(token, arg) && |arg| < room {
      var colon: nat :| EncodesAt(token, colon, arg);
      ColonEndsDigits(token, colon);
      UnhexIs(token[colon + 1..], arg, |arg|);
      assert arg[..|arg|] == arg;
    }
  }

  /** The token starts with a decimal number that no size_t holds. */
  ghost predicate Overflows(token: string) {
    exists n :: 0 < n <= |token| && AllDigits(token[..n]) && Decimal(token[..n]) > SIZE_MAX
  }

  /** A decimal length, a colon and as many pairs of characters, but no room for them and a NUL. */
  predicate CrowdedAt(token: string, colon: nat, room: nat) {
    && 0 < colon < |token| && token[colon] == ':' && AllDigits(token[..colon])
    && var length := Decimal(token[..colon]);
       length <= SIZE_MAX / 2 && |token| - colon - 1 == 2 * length && length >= room
  }

  ghost predicate Crowded(token: string, room: nat) {
    exists colon: nat :: CrowdedAt(token, colon, room)
  }

  /** Which error a refused token gives. */
  lemma RefusedBecause(token: string, room: nat)
    ensures Judge(token, room) == Error(EOVERFLOW) <==> Overflows(token)
    ensures Judge(token, room) == Error(E2BIG) <==> Crowded(token, room)
    ensures Judge(token, room).Error? ==> Judge(token, room).code in {EINVAL, EOVERFLOW, E2BIG}
  {
    hide Unhex, Decimal;
    var n := Digits(token);
    if Overflows(token) {
      var k :| 0 < k <= |token| && AllDigits(token[..k]) && Decimal(token[..k]) > SIZE_MAX;
      DigitsBeyond(token, k);
      DecimalGrows(token[..n], k);
      assert token[..n][..k] == token[..k];
    }
    if Crowded(token, room) {
      var colon: nat :| CrowdedAt(token, colon, room);
      ColonEndsDigits(token, colon);
      NoOverflow(token, colon);
    }
    if Judge(token, room) == Error(E2BIG) {
      assert CrowdedAt(token, n, room);
    }
  }

  lemma DigitsBeyond(token: string, k: nat)
    requires k <= |token| && AllDigits(token[..k])
    ensures k <= Digits(token)
  {
    assert forall i :: 0 <= i < k ==> IsDigit(token[..k][i]) && token[..k][i] == token[i];
  }

  lemma NoOverflow(token: string, colon: nat)
    requires Digits(token) == colon && Decimal(token[..colon]) <= SIZE_MAX
    ensures !Overflows(token)
  {
    hide Decimal;
    forall n | 0 < n <= |token| && AllDigits(token[..n])
      ensures Decimal(token[..n]) <= SIZE_MAX
    {
      DigitsBeyond(token, n);
      DecimalGrows(token[..colon], n);
      assert token[..colon][..n] == token[..n];
    }
  }

  // ----- decoding into the buffer

  /** Reads the decimal length; the value never exceeds what a size_t holds. */
  method ParseLength(token: string) returns (rc: int, length: nat, n: nat)
    ensures n <= Digits(token) && length <= SIZE_MAX
    ensures rc == EINVAL <==> Digits(token) == 0
    ensures rc == EOVERFLOW <==> Decimal(token[..Digits(token)]) > SIZE_MAX
    ensures rc in {0, EINVAL, EOVERFLOW}
    ensures rc == 0 ==> n == Digits(token) && length == Decimal(token[..n])
  {
    rc, length, n := 0, 0, 0;
    if token == "" || !IsDigit(token[0]) {
      rc := EINVAL;
      return;
    }
    while n < |token| && IsDigit(token[n])
      invariant n <= Digits(token) && Digits(token) > 0
      invariant AllDigits(token[..n]) && length == Decimal(token[..n]) <= SIZE_MAX
    {
      var digit := HexValue(token[n]);
      DigitAt(token, n);
      assert token[..n + 1][..n] == token[..n];
      if length > (SIZE_MAX - digit) / 10 {
        DecimalGrows(token[..Digits(token)], n + 1);
        assert token[..Digits(token)][..n + 1] == token[..n + 1];
        rc := EOVERFLOW;
        return;
      }
      length := length * 10 + digit;
      n := n + 1;
    }
    assert forall i :: 0 <= i < Digits(token) ==> token[..Digits(token)][i] == token[i];
  }

  lemma DigitAt(token: string, n: nat)
    requires n < |token| && IsDigit(token[n]) && n <= Digits(token)
    ensures n < Digits(token) && AllDigits(token[..n + 1])
  {
    assert token[..n + 1] == token[..Digits(token)][..n + 1];
  }

  lemma {:induction false} DecimalGrows(s: string, n: nat)
    requires AllDigits(s) && n <= |s|
    ensures AllDigits(s[..n]) && Decimal(s[..n]) <= Decimal(s)
    decreases |s|
  {
    if n == |s| {
      assert s[..n] == s;
    } else {
      var t := s[..|s| - 1];
      DecimalGrows(t, n);
      assert t[..n] == s[..n];
    }
  }

  lemma {:induction false} UnhexStops(hex: string, m: nat, n: nat)
    requires m <= n && 2 * n <= |hex| && Unhex(hex, m).None?
    ensures Unhex(hex, n).None?
  {
    if m < n {
      UnhexStops(hex, m, n - 1);
    }
  }

  /** Stores the decoded bytes from `pos` on, stopping at the first pair that is not a nonzero byte. */
  method FillArg(hex: string, length: nat, buf: array<Byte>, pos: nat) returns (ok: bool, next: nat)
    requires |hex| == 2 * length && pos + length <= buf.Length
    modifies buf
    ensures pos <= next <= pos + length && buf[..pos] == old(buf[..pos]) && buf[next..] == old(buf[next..])
    ensures ok <==> Unhex(hex, length).Some?
    ensures ok ==> next == pos + length && buf[pos..next] == Unhex(hex, length).value
  {
    hide HexValue;
    next := pos;
    for index := 0 to length
      invariant next == pos + index
      invariant Unhex(hex, index).Some? && buf[pos..next] == Unhex(hex, index).value
      invariant forall k :: 0 <= k < pos || next <= k < buf.Length ==> buf[k] == old(buf[k])
    {
      var high, low := HexValue(hex[index * 2]), HexValue(hex[index * 2 + 1]);
      if high < 0 || low < 0 || 16 * high + low == 0 {
        UnhexStops(hex, index + 1, length);
        return false, next;
      }
      buf[next] := 16 * high + low;
      next := next + 1;
    }
    return true, next;
  }

  /** Decodes one token at `pos`. Nothing before `pos` and nothing beyond the argument's room changes. */
  method ParseToken(token: string, buf: array<Byte>, pos: nat) returns (rc: int, next: nat)
    requires pos <= buf.Length
    modifies buf
    ensures pos <= next <= buf.Length && buf[..pos] == old(buf[..pos]) && buf[next..] == old(buf[next..])
    ensures match Judge(token, buf.Length - pos)
            case Ok(arg) => rc == 0 && next == pos + |arg| + 1 && buf[pos..next] == arg + [0]
            case Error(code) => rc == code
  {
    hide Unhex, Decimal, Digits;
    var code, length, n := ParseLength(token);
    next := pos;
    if code < 0 {
      return code, pos;
    }
    if n == |token| || token[n] != ':' {
      return EINVAL, pos;
    }
    var hex := token[n + 1..];
    if length > SIZE_MAX / 2 || |hex| != length * 2 {
      return EINVAL, pos;
    }
    if length + 1 > buf.Length || pos > buf.Length - length - 1 {
      return E2BIG, pos;
    }
    var ok: bool;
    ok, next := FillArg(hex, length, buf, pos);
    if !ok {
      return EINVAL, next;
    }
    buf[next] := 0;
    next := next + 1;
    return 0, next;
  }

  // ----- the whole vector

  /** The buffer holding `args`, each with its NUL. */
  function Packed(args: seq<Arg>): seq<Byte> {
    if args == [] then [] else Packed(args[..|args| - 1]) + args[|args| - 1] + [0]
  }

  /** Where argument `i` starts in the buffer. */
  function Start(args: seq<Arg>, i: nat): nat
    requires i <= |args|
  {
    |Packed(args[..i])|
  }

  /** The outcome for the tokens, taken in order. */
  function JudgeAll(tokens: seq<string>): (r: Result<seq<Arg>>)
    ensures r.Ok? ==> |r.value| == |tokens| && |Packed(r.value)| <= BUFFER_BYTES
    ensures r.Error? ==> r.code < 0
  {
    if tokens == [] then Ok([])
    else
      var before := JudgeAll(tokens[..|tokens| - 1]);
      if before.Error? then before
      else
        var last := Judge(tokens[|tokens| - 1], BUFFER_BYTES - |Packed(before.value)|);
        if last.Error? then Error(last.code)
        else
          var args := before.value + [last.value];
          assert args[..|args| - 1] == before.value;
          Ok(args)
  }

  lemma {:induction false} FirstErrorStands(tokens: seq<string>, n: nat)
    requires n <= |tokens| && JudgeAll(tokens[..n]).Error?
    ensures JudgeAll(tokens) == JudgeAll(tokens[..n])
    decreases |tokens|
  {
    if n == |tokens| {
      assert tokens[..n] == tokens;
    } else {
      var t := tokens[..|tokens| - 1];
      assert t[..n] == tokens[..n];
      FirstErrorStands(t, n);
    }
  }

  /** An error is that of the first token that is refused, in the room that the arguments before it leave. */
  lemma {:induction false} FirstRefused(tokens: seq<string>) returns (n: nat, args: seq<Arg>)
    requires JudgeAll(tokens).Error?
    ensures n < |tokens| && JudgeAll(tokens[..n]) == Ok(args)
    ensures Judge(tokens[n], BUFFER_BYTES - |Packed(args)|) == Error(JudgeAll(tokens).code)
  {
    hide Judge, Packed;
    n := |tokens| - 1;
    var before := JudgeAll(tokens[..n]);
    if before.Ok? {
      args := before.value;
    } else {
      var t := tokens[..n];
      n, args := FirstRefused(t);
      assert t[..n] == tokens[..n];
    }
  }

  /** What the decoder returns: the number of arguments, or an error. */
  function Verdict(tokens: seq<string>): int {
    if |tokens| == 0 || |tokens| >= MAX_ARGS then EINVAL
    else
      var r := JudgeAll(tokens);
      if r.Error? then r.code
      else if r.value[0] == [] then EINVAL
      else |tokens|
  }

  /** `argv` holds offsets into `buffer`, None standing for NULL. */
  class Decoded {
    const argv: array<Option<nat>>
    const buffer: array<Byte>
    var argc: int

    constructor ()
      ensures argv.Length == MAX_ARGS && buffer.Length == BUFFER_BYTES
      ensures fresh(argv) && fresh(buffer)
    {
      argv, buffer, argc := new Option<nat>[MAX_ARGS], new Byte[BUFFER_BYTES], 0;
    }

    ghost predicate Valid() {
      argv.Length == MAX_ARGS && buffer.Length == BUFFER_BYTES
    }

    /** The decoded vector is `args`: its slots point at the packed arguments and a NULL follows them. */
    ghost predicate Holds(args: seq<Arg>)
      requires Valid()
      reads this, argv, buffer
    {
      && argc == |args| < MAX_ARGS
      && Packed(args) <= buffer[..]
      && Placed(argv[..], args)
      && argv[|args|] == None
    }
  }

  method Clear(d: Decoded)
    requires d.Valid()
    modifies d, d.argv, d.buffer
    ensures d.argc == 0 && (forall i :: 0 <= i < MAX_ARGS ==> d.argv[i] == None)
    ensures forall i :: 0 <= i < BUFFER_BYTES ==> d.buffer[i] == 0
  {
    d.argc := 0;
    for i := 0 to MAX_ARGS
      invariant d.argc == 0 && forall k :: 0 <= k < i ==> d.argv[k] == None
    {
      d.argv[i] := None;
    }
    for i := 0 to BUFFER_BYTES
      invariant d.argc == 0 && forall k :: 0 <= k < MAX_ARGS ==> d.argv[k] == None
      invariant forall k :: 0 <= k < i ==> d.buffer[k] == 0
    {
      d.buffer[i] := 0;
    }
  }

  /** The slots point at the packed arguments. */
  ghost predicate Placed(argv: seq<Option<nat>>, args: seq<Arg>) {
    |args| <= |argv| && forall i :: 0 <= i < |args| ==> argv[i] == Some(Start(args, i))
  }

  lemma NothingPlaced(argv: seq<Option<nat>>)
    ensures Packed([]) == [] && Placed(argv, [])
  {}

  lemma PlacedSnoc(argv: seq<Option<nat>>, args: seq<Arg>, arg: Arg)
    requires Placed(argv, args) && |args| < |argv|
    ensures Placed(argv[|args| := Some(|Packed(args)|)], args + [arg])
  {
    forall i | 0 <= i <= |args|
      ensures (args + [arg])[..i] == args[..i]
    {}
    assert args[..|args|] == args;
  }

  lemma JudgeNext(tokens: seq<string>, n: nat, args: seq<Arg>)
    requires n < |tokens| && JudgeAll(tokens[..n]) == Ok(args)
    ensures var last := Judge(tokens[n], BUFFER_BYTES - |Packed(args)|);
            JudgeAll(tokens[..n + 1]) == if last.Ok? then Ok(args + [last.value]) else Error(last.code)
  {
    hide Judge, Packed;
    var front := tokens[..n + 1];
    assert |front| == n + 1 && front[..n] == tokens[..n] && front[n] == tokens[n];
  }

  /** Decodes the tokens one after another, up to the first that is refused. */
  method DecodeTokens(tokens: seq<string>, d: Decoded) returns (rc: int)
    requires d.Valid() && 0 < |tokens| < MAX_ARGS
    modifies d.argv, d.buffer
    ensures match JudgeAll(tokens)
            case Ok(args) => rc == 0 && Packed(args) <= d.buffer[..] && Placed(d.argv[..], args)
            case Error(code) => rc == code
  {
    hide Judge, Packed, Placed, Start;
    var pos := 0;
    ghost var args: seq<Arg> := [];
    NothingPlaced(d.argv[..]);
    for index := 0 to |tokens|
      invariant pos <= BUFFER_BYTES && |args| == index
      invariant JudgeAll(tokens[..index]) == Ok(args)
      invariant d.buffer[..pos] == Packed(args) && Placed(d.argv[..], args)
    {
      ghost var argv, offset := d.argv[..], pos;
      JudgeNext(tokens, index, args);
      d.argv[index] := Some(pos);
      rc, pos := ParseToken(tokens[index], d.buffer, pos);
      if rc < 0 {
        FirstErrorStands(tokens, index + 1);
        return;
      }
      ghost var arg := Judge(tokens[index], BUFFER_BYTES - offset).value;
      PackedSnoc(args, arg);
      PlacedSnoc(argv, args, arg);
      assert d.argv[..] == argv[index := Some(offset)];
      assert d.buffer[..pos] == d.buffer[..offset] + d.buffer[offset..pos];
      args := args + [arg];
    }
    assert tokens[..|tokens|] == tokens;
    return 0;
  }

  method Decode(tokens: seq<string>, d: Decoded) returns (rc: int)
    requires d.Valid()
    modifies d, d.argv, d.buffer
    ensures rc == Verdict(tokens)
    ensures rc >= 0 ==> JudgeAll(tokens).Ok? && d.Holds(JudgeAll(tokens).value)
    ensures rc < 0 ==> d.argc == 0
    ensures d.argv[0].Some? ==> |tokens| < MAX_ARGS && JudgeAll(tokens).Ok?
  {
    hide Judge, JudgeAll, Packed, Start;
    Clear(d);
    if |tokens| == 0 || |tokens| >= MAX_ARGS {
      return EINVAL;
    }
    rc := DecodeTokens(tokens, d);
    if rc < 0 {
      d.argv[0], d.argc := None, 0;
      return;
    }
    d.argv[|tokens|] := None;
    FirstByte(tokens, JudgeAll(tokens).value);
    if d.buffer[d.argv[0].value] == 0 {
      d.argc := 0;
      return EINVAL;
    }
    d.argc := |tokens|;
    return |tokens|;
  }

  lemma FirstByte(tokens: seq<string>, args: seq<Arg>)
    requires JudgeAll(tokens) == Ok(args) && args != []
    ensures Start(args, 0) == 0 < |Packed(args)|
    ensures Packed(args)[0] == 0 <==> args[0] == []
  {
    AcceptedAll(tokens, args);
    SliceAt(args, 0);
    if args[0] != [] {
      assert Packed(args)[0] == Packed(args)[0..|args[0]|][0];
      assert Encodes(tokens[0], args[0]) && args[0][0] in args[0];
    }
  }

  lemma PackedSnoc(args: seq<Arg>, arg: Arg)
    ensures Packed(args + [arg]) == Packed(args) + arg + [0]
  {
    assert (args + [arg])[..|args|] == args;
  }

  /** Each argument occupies its own NUL-terminated slice, and the slices follow one another. */
  lemma {:induction false} SliceAt(args: seq<Arg>, i: nat)
    requires i < |args|
    ensures Start(args, i) + |args[i]| + 1 == Start(args, i + 1) <= |Packed(args)|
    ensures Packed(args)[Start(args, i)..Start(args, i) + |args[i]|] == args[i]
    ensures Packed(args)[Start(args, i) + |args[i]|] == 0
    decreases |args|
  {
    hide Packed;
    var front, last := args[..|args| - 1], args[|args| - 1];
    PackedSnoc(front, last);
    assert args == front + [last];
    assert args[..i + 1] == args[..i] + [args[i]];
    PackedSnoc(args[..i], args[i]);
    if i < |args| - 1 {
      SliceAt(front, i);
      assert front[..i] == args[..i] && front[..i + 1] == args[..i + 1];
      PrefixSlice(Packed(front), Packed(args), Start(args, i), |args[i]|);
    } else {
      assert args[..i] == front && args[..i + 1] == args;
    }
  }

  lemma PrefixSlice<T>(a: seq<T>, b: seq<T>, s: nat, n: nat)
    requires s + n < |a| && a <= b
    ensures b[s..s + n] == a[s..s + n] && b[s + n] == a[s + n]
  {}

  /** The slices of different arguments do not overlap. */
  lemma {:induction false} SlicesDisjoint(args: seq<Arg>, i: nat, j: nat)
    requires i < j < |args|
    ensures Start(args, i) + |args[i]| < Start(args, j)
  {
    SliceAt(args, j - 1);
    if i < j - 1 {
      SlicesDisjoint(args, i, j - 1);
    }
  }

  /** A vector of tokens is accepted as `args` exactly when every token encodes its argument and all of
      them fit the buffer. */
  lemma {:induction false} AcceptedAll(tokens: seq<string>, args: seq<Arg>)
    ensures JudgeAll(tokens) == Ok(args) <==>
            |args| == |tokens| && |Packed(args)| <= BUFFER_BYTES
            && forall i :: 0 <= i < |tokens| ==> Encodes(tokens[i], args[i])
    decreases |tokens|
  {
    hide Judge, Encodes, Packed;
    if tokens != [] && |args| == |tokens| {
      var n := |tokens| - 1;
      var front, last := args[..n], args[n];
      assert args == front + [last];
      PackedSnoc(front, last);
      AcceptedAll(tokens[..n], front);
      var room := BUFFER_BYTES - |Packed(front)|;
      if room >= 0 {
        Accepted(tokens[n], room, last);
      }
      if JudgeAll(tokens) == Ok(args) {
        assert JudgeAll(tokens[..n]).value == args[..n];
      }
    }
  }

  // ----- the sender's side

  function DecimalText(n: nat): string {
    (if n < 10 then "" else DecimalText(n / 10)) + [DigitChar(n % 10)]
  }

  function DigitChar(v: int): (ch: char)
    requires 0 <= v < 16
    ensures HexValue(ch) == v && (v < 10 ==> IsDigit(ch))
  {
    if v < 10 then '0' + v as char else 'a' + (v - 10) as char
  }

  function HexText(arg: Arg): string {
    if arg == [] then ""
    else
      var last := arg[|arg| - 1];
      HexText(arg[..|arg| - 1]) + [DigitChar(last / 16), DigitChar(last % 16)]
  }

  function Encode(arg: Arg): string {
    DecimalText(|arg|) + ":" + HexText(arg)
  }

  function EncodeAll(args: seq<Arg>): seq<string> {
    seq(|args|, i requires 0 <= i < |args| => Encode(args[i]))
  }

  lemma {:induction false} DecimalTextReads(n: nat)
    ensures |DecimalText(n)| > 0 && AllDigits(DecimalText(n)) && Decimal(DecimalText(n)) == n
  {
    var s := DecimalText(n);
    assert s[..|s| - 1] == if n < 10 then "" else DecimalText(n / 10);
    if n >= 10 {
      DecimalTextReads(n / 10);
    }
  }

  lemma {:induction false} HexTextReads(arg: Arg)
    ensures HexSpells(HexText(arg), arg)
  {
    if arg != [] {
      HexTextReads(arg[..|arg| - 1]);
    }
  }

  lemma OnePairOneByte(high: char, low: char, a: Byte, b: Byte)
    ensures PairSpells(high, low, a) && PairSpells(high, low, b) ==> a == b
  {}

  lemma EncodeReads(arg: Arg, other: Arg)
    ensures Encodes(Encode(arg), other) <==> other == arg && 0 !in arg
  {
    hide DecimalText, HexText, Decimal, Digits, PairSpells, AllDigits;
    var text, hex := DecimalText(|arg|), HexText(arg);
    var token, n := Encode(arg), |text|;
    DecimalTextReads(|arg|);
    HexTextReads(arg);
    assert token[..n] == text && token[n + 1..] == hex;
    if 0 !in arg {
      assert EncodesAt(token, n, arg);
    }
    if Encodes(token, other) {
      var colon: nat :| EncodesAt(token, colon, other);
      ColonEndsDigits(token, colon);
      ColonEndsDigits(token, n);
      forall i | 0 <= i < |arg|
        ensures arg[i] == other[i]
      {
        OnePairOneByte(hex[2 * i], hex[2 * i + 1], arg[i], other[i]);
      }
    }
  }

  /** The vectors the encoding can carry. */
  predicate Sendable(args: seq<Arg>) {
    && 0 < |args| < MAX_ARGS && args[0] != []
    && |Packed(args)| <= BUFFER_BYTES
    && forall i :: 0 <= i < |args| ==> 0 !in args[i]
  }

  /** Encoding and decoding gives the same vector back, exactly for those. */
  lemma RoundTrip(args: seq<Arg>)
    ensures Verdict(EncodeAll(args)) == |args| <==> Sendable(args)
    ensures Sendable(args) ==> JudgeAll(EncodeAll(args)) == Ok(args)
  {
    hide Encode, Encodes, JudgeAll, Packed;
    var tokens := EncodeAll(args);
    forall i, other | 0 <= i < |args|
      ensures Encodes(tokens[i], other) <==> other == args[i] && 0 !in args[i]
    {
      EncodeReads(args[i], other);
    }
    AcceptedAll(tokens, args);
    if Verdict(tokens) == |args| {
      var got := JudgeAll(tokens).value;
      AcceptedAll(tokens, got);
      forall i | 0 <= i < |args|
        ensures got[i] == args[i]
      {
        assert Encodes(tokens[i], got[i]);
      }
      assert got == args;
    }
  }

  /** The same, through the decoder: the caller gets its own arguments back as slices of the buffer. */
  method SendAndDecode(args: seq<Arg>, d: Decoded) returns (rc: int)
    requires d.Valid()
    modifies d, d.argv, d.buffer
    ensures rc == |args| <==> Sendable(args)
    ensures rc == |args| ==> d.Holds(args)
    ensures rc != |args| ==> rc < 0 && d.argc == 0
  {
    RoundTrip(args);
    rc := Decode(EncodeAll(args), d);
  }
}
