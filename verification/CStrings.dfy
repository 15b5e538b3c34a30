/** The C string functions that the handoff code relies on. */
module CStrings {
  import opened Common
  import opened Slices

  const NUL: char := '\0'

  /** The text a C string function sees: everything before the first NUL. */
  function CString(s: string): string {
    if s == "" || s[0] == NUL then "" else [s[0]] + CString(s[1..])
  }

  /** strchr */
  function IndexOf(s: string, c: char): Option<nat> {
    if s == "" then None
    else if s[0] == c then Some(0)
    else
      var r := IndexOf(s[1..], c);
      if r.Some? then Some(r.value + 1) else None
  }

  predicate HasAt(s: string, key: string, at: int) {
    0 <= at <= |s| - |key| && s[at..at + |key|] == key
  }

  /** strstr */
  function Find(s: string, key: string): Option<nat> {
    if HasAt(s, key, 0) then Some(0)
    else if s == "" then None
    else
      var r := Find(s[1..], key);
      if r.Some? then Some(r.value + 1) else None
  }

  lemma {:induction false} CStringPrefix(s: string)
    ensures |CString(s)| <= |s| && CString(s) == s[..|CString(s)|] && NUL !in CString(s)
    ensures |CString(s)| == |s| || s[|CString(s)|] == NUL
  {
    if s != "" && s[0] != NUL {
      CStringPrefix(s[1..]);
      var t := CString(s[1..]);
      assert s[..|t| + 1] == [s[0]] + s[1..][..|t|];
    }
  }

  lemma {:induction false} CStringOfPlain(s: string)
    requires NUL !in s
    ensures CString(s) == s
  {
    if s != "" {
      CStringOfPlain(s[1..]);
    }
  }

  lemma HasAtTail(s: string, key: string, at: int)
    requires s != "" && at >= 0
    ensures HasAt(s[1..], key, at) <==> HasAt(s, key, at + 1)
  {
    if at + 1 + |key| <= |s| {
      SliceOfSlice(s, 1, |s|, at, at + |key|);
      assert s[1..] == s[1..|s|];
    }
  }

  /** strstr finds the first occurrence, or there is none. */
  lemma {:induction false} FindFirst(s: string, key: string)
    ensures Find(s, key).Some? ==> HasAt(s, key, Find(s, key).value)
    ensures forall i :: HasAt(s, key, i) ==> Find(s, key).Some? && Find(s, key).value <= i
  {
    if !HasAt(s, key, 0) && s != "" {
      FindFirst(s[1..], key);
      var r := Find(s[1..], key);
      if r.Some? {
        HasAtTail(s, key, r.value);
      }
      forall i | HasAt(s, key, i)
        ensures r.Some? && r.value + 1 <= i
      {
        HasAtTail(s, key, i - 1);
      }
    }
  }

  lemma {:induction false} IndexOfFirst(s: string, c: char)
    ensures IndexOf(s, c).Some? ==>
        IndexOf(s, c).value < |s| && s[IndexOf(s, c).value] == c && c !in s[..IndexOf(s, c).value]
    ensures IndexOf(s, c).None? <==> c !in s
  {
    if s != "" && s[0] != c {
      IndexOfFirst(s[1..], c);
      var r := IndexOf(s[1..], c);
      if r.Some? {
        assert s[..r.value + 1] == [s[0]] + s[1..][..r.value];
      } else {
        assert s == [s[0]] + s[1..];
      }
    }
  }

  lemma {:induction false} IndexOfIs(s: string, c: char, k: nat)
    requires k < |s| && s[k] == c && c !in s[..k]
    ensures IndexOf(s, c) == Some(k)
  {
    if k > 0 {
      assert s[..k] == [s[0]] + s[1..][..k - 1];
      IndexOfIs(s[1..], c, k - 1);
    }
  }
}
