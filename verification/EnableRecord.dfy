/** The text of the durable enable and latch records, and the exact test under which an enable record is
    honoured. Record text is handled as C strings, so everything after a NUL is invisible to the test. */
module EnableRecord {
  import opened Common
  import opened CStrings

  const KEY := "intent_sha256="
  const STATE_LINE := "\nstate="
  const ARMED := "armed-after-native-health"
  const DISPATCHED := "automatic-handoff-dispatched-no-replay"
  const STATE_MAX: nat := 768

  predicate Hex64(s: string) {
    |s| == 64 && forall i :: 0 <= i < 64 ==> '0' <= s[i] <= '9' || 'a' <= s[i] <= 'f'
  }

  /** `head` is what the compiled-in binding prints before the intent line. */
  function Format(head: string, intent: string, state: string): string {
    head + KEY + intent + STATE_LINE + state + "\n"
  }

  /** What the compiled-in values have to be like: whole lines, no NUL and no second intent key. */
  ghost predicate Binding(head: string) {
    && head != "" && head[|head| - 1] == '\n' && NUL !in head
    && (forall i :: !HasAt(head, KEY, i))
  }

  // ----- the enable test

  /** The intent that a90_auto_handoff_read_enable accepts from a record's bytes, if any. */
  function ReadIntent(head: string, content: string): Option<string> {
    var text := CString(content);
    var at := Find(text, KEY);
    if !(0 < |content| < STATE_MAX) || at.None? || at.value + |KEY| > |text| then None
    else
      var rest := text[at.value + |KEY|..];
      if IndexOf(rest, '\n') != Some(64) || |rest| < 64 then None
      else
        var intent := rest[..64];
        if Hex64(intent) && text == Format(head, intent, ARMED) then Some(intent) else None
  }

  /** The key the test looks for first is the one the formatter wrote. */
  lemma KeyPosition(head: string, intent: string)
    requires Binding(head) && Hex64(intent)
    ensures Find(Format(head, intent, ARMED), KEY) == Some(|head|)
  {
    hide Find;
    var text := Format(head, intent, ARMED);
    assert text == head + text[|head|..];
    assert HasAt(text, KEY, |head|);
    forall i | HasAt(text, KEY, i)
      ensures i >= |head|
    {
      if i < |head| {
        NoEarlierKey(head, text[|head|..], i);
      }
    }
    FindFirst(text, KEY);
  }

  lemma NoEarlierKey(head: string, rest: string, i: nat)
    requires Binding(head) && i < |head|
    ensures !HasAt(head + rest, KEY, i)
  {
    var text := head + rest;
    if i + |KEY| <= |head| {
      assert text[i..i + |KEY|] == head[i..i + |KEY|];
      assert !HasAt(head, KEY, i);
    } else if i + |KEY| <= |text| {
      assert text[i..i + |KEY|][|head| - 1 - i] == '\n';
      assert '\n' !in KEY;
    }
  }

  lemma FormatIsPlain(head: string, intent: string)
    requires Binding(head) && Hex64(intent)
    ensures NUL !in Format(head, intent, ARMED)
    ensures |Format(head, intent, ARMED)| == |head| + |KEY| + 64 + |STATE_LINE| + |ARMED| + 1
  {
    var text := Format(head, intent, ARMED);
    forall k | 0 <= k < |text|
      ensures text[k] != NUL
    {
      assert k < |head| ==> text[k] in head;
      assert |head| + |KEY| <= k < |head| + |KEY| + 64 ==> text[k] == intent[k - |head| - |KEY|];
    }
  }

  /** A record is honoured, and for exactly one intent, when its text up to the first NUL is the armed
      record of that intent. */
  lemma EnableExact(head: string, content: string, intent: string)
    requires Binding(head) && 0 < |content| < STATE_MAX
    ensures ReadIntent(head, content) == Some(intent) <==>
            Hex64(intent) && CString(content) == Format(head, intent, ARMED)
  {
    hide CString;
    hide Find;
    hide IndexOf;
    hide Binding;
    if Hex64(intent) && CString(content) == Format(head, intent, ARMED) {
      KeyPosition(head, intent);
      IntentField(head, intent);
    }
  }

  lemma IntentField(head: string, intent: string)
    requires Hex64(intent)
    ensures var rest := Format(head, intent, ARMED)[|head| + |KEY|..];
            IndexOf(rest, '\n') == Some(64) && rest[..64] == intent
  {
    var rest := Format(head, intent, ARMED)[|head| + |KEY|..];
    assert rest == intent + STATE_LINE + ARMED + "\n";
    assert rest[..64] == intent;
    IndexOfIs(rest, '\n', 64);
  }

  /** What an unsynced file may hold after a power cut: no more bytes than were written, each of them
      written or still zero. */
  predicate Torn(found: string, written: string) {
    |found| <= |written| && forall i :: 0 <= i < |found| ==> found[i] == written[i] || found[i] == NUL
  }

  /** A torn enable record is honoured only if it is complete, so only for the intent it was written
      with. */
  lemma TornRecordNamesItsWriter(head: string, found: string, writer: string, intent: string)
    requires Binding(head) && Hex64(writer) && Torn(found, Format(head, writer, ARMED))
    requires ReadIntent(head, found) == Some(intent)
    ensures intent == writer && found == Format(head, writer, ARMED)
  {
    EnableExact(head, found, intent);
    CStringPrefix(found);
    FormatIsPlain(head, writer);
    FormatIsPlain(head, intent);
    var f, g := Format(head, intent, ARMED), Format(head, writer, ARMED);
    assert found == f;
    assert forall k :: 0 <= k < |f| ==> f[k] == g[k];
    assert intent == f[|head| + |KEY|..|head| + |KEY| + 64];
    assert writer == g[|head| + |KEY|..|head| + |KEY| + 64];
  }
}
