// Keeping ephemeral secrets out of stored output (apps/worker/src/daemon-implementation.ts):
// the chunked scan of a file and the redaction of known secrets from a text.
module Secrets {
  import opened Wrappers

  const MIN_SECRET: nat := 8

  // ----- occurrences --------------------------------------------------------

  predicate OccursAt<T(==)>(text: seq<T>, needle: seq<T>, i: nat) {
    i + |needle| <= |text| && text[i..i + |needle|] == needle
  }

  predicate Contains<T(==)>(text: seq<T>, needle: seq<T>) {
    exists i: nat :: i <= |text| && OccursAt(text, needle, i)
  }

  lemma OccursInSuffix<T>(text: seq<T>, cut: nat, needle: seq<T>, i: nat)
    requires cut <= |text|
    ensures OccursAt(text[cut..], needle, i) <==> OccursAt(text, needle, cut + i)
  {
    if cut + i + |needle| <= |text| {
      assert text[cut..][i..i + |needle|] == text[cut + i..cut + i + |needle|];
    }
  }

  lemma OccursInPrefix<T>(text: seq<T>, more: seq<T>, needle: seq<T>, i: nat)
    requires i + |needle| <= |text|
    ensures OccursAt(text + more, needle, i) <==> OccursAt(text, needle, i)
  {
    assert (text + more)[i..i + |needle|] == text[i..i + |needle|];
  }

  // ----- scanning a file chunk by chunk -------------------------------------

  type Bytes = seq<bv8>

  function Concat(chunks: seq<Bytes>): Bytes {
    if chunks == [] then [] else Concat(chunks[..|chunks| - 1]) + chunks[|chunks| - 1]
  }

  function Needles(encode: string -> Bytes, secrets: seq<string>): (r: seq<Bytes>)
    ensures forall n :: n in r <==> exists s :: s in secrets && |s| >= MIN_SECRET && encode(s) == n
  {
    if secrets == [] then []
    else
      (if |secrets[0]| >= MIN_SECRET then [encode(secrets[0])] else []) + Needles(encode, secrets[1..])
  }

  function Longest(needles: seq<Bytes>): (n: nat)
    ensures forall x :: x in needles ==> |x| <= n
    ensures needles != [] ==> exists x :: x in needles && |x| == n
  {
    if needles == [] then 0
    else
      var rest := Longest(needles[1..]);
      if |needles[0]| >= rest then |needles[0]| else rest
  }

  function Last(text: Bytes, n: nat): Bytes {
    text[if |text| > n then |text| - n else 0..]
  }

  lemma LastIsTail(text: Bytes, n: nat)
    ensures |Last(text, n)| == if |text| > n then n else |text|
    ensures text[|text| - |Last(text, n)|..] == Last(text, n)
  {}

  // A needle that was not there before and reaches into the new chunk starts inside the kept
  // tail, so looking at the tail and the chunk misses none and invents none.
  lemma TailSuffices(whole: Bytes, overlap: nat, chunk: Bytes, needle: Bytes)
    requires 0 < |needle| <= overlap + 1 && !Contains(whole, needle)
    ensures Contains(whole + chunk, needle) <==> Contains(Last(whole, overlap) + chunk, needle)
  {
    var text, tail := whole + chunk, Last(whole, overlap);
    var cut := |whole| - |tail|;
    assert text[cut..] == tail + chunk;
    if Contains(text, needle) {
      var i: nat :| i <= |text| && OccursAt(text, needle, i);
      if i + |needle| <= |whole| {
        OccursInPrefix(whole, chunk, needle, i);
      }
      OccursInSuffix(text, cut, needle, i - cut);
    }
    if Contains(tail + chunk, needle) {
      var i: nat :| i <= |tail + chunk| && OccursAt(tail + chunk, needle, i);
      OccursInSuffix(text, cut, needle, i);
    }
  }

  lemma LastOfMore(whole: Bytes, overlap: nat, chunk: Bytes)
    ensures Last(Last(whole, overlap) + chunk, overlap) == Last(whole + chunk, overlap)
  {}

  lemma EmptyHolds(needle: Bytes)
    requires needle != []
    ensures !Contains([], needle)
  {}

  // Rejects exactly when the whole content contains a secret, however it is cut into chunks.
  method SecretFreeFile(encode: string -> Bytes, chunks: seq<Bytes>, secrets: seq<string>) returns (clean: bool)
    requires forall s :: |encode(s)| >= |s|
    ensures !clean <==> exists s :: s in secrets && |s| >= MIN_SECRET && Contains(Concat(chunks), encode(s))
  {
    var needles := Needles(encode, secrets);
    if needles == [] {
      assert forall s :: s in secrets && |s| >= MIN_SECRET ==> encode(s) in needles;
      return true;
    }
    var overlap := Longest(needles) - 1;
    var tail: Bytes := [];
    forall n | n in needles ensures n != [] && !Contains(Concat([]), n) {
      EmptyHolds(n);
    }
    for i := 0 to |chunks|
      invariant tail == Last(Concat(chunks[..i]), overlap)
      invariant forall n :: n in needles ==> n != [] && |n| <= overlap + 1 && !Contains(Concat(chunks[..i]), n)
    {
      assert chunks[..i + 1][..i] == chunks[..i];
      var candidate := tail + chunks[i];
      forall n | n in needles
        ensures Contains(Concat(chunks[..i + 1]), n) <==> Contains(candidate, n)
      {
        TailSuffices(Concat(chunks[..i]), overlap, chunks[i], n);
      }
      if exists n :: n in needles && Contains(candidate, n) {
        ghost var n :| n in needles && Contains(candidate, n);
        ghost var s :| s in secrets && |s| >= MIN_SECRET && encode(s) == n;
        ContainedLasts(chunks, i + 1, n);
        return false;
      }
      LastOfMore(Concat(chunks[..i]), overlap, chunks[i]);
      tail := Last(candidate, overlap);
    }
    assert chunks[..|chunks|] == chunks;
    assert forall s :: s in secrets && |s| >= MIN_SECRET ==> encode(s) in needles;
    return true;
  }

  lemma {:induction false} ContainedLasts(chunks: seq<Bytes>, i: nat, needle: Bytes)
    requires i <= |chunks| && Contains(Concat(chunks[..i]), needle)
    ensures Contains(Concat(chunks), needle)
    decreases |chunks|
  {
    if i < |chunks| {
      var front := chunks[..|chunks| - 1];
      assert front[..i] == chunks[..i];
      ContainedLasts(front, i, needle);
      var k: nat :| k <= |Concat(front)| && OccursAt(Concat(front), needle, k);
      OccursInPrefix(Concat(front), chunks[|chunks| - 1], needle, k);
    } else {
      assert chunks[..i] == chunks;
    }
  }

  // ----- redaction ----------------------------------------------------------

  const MARKER: string := "[REDACTED]"

  // How JSON (RFC 8259, section 7) writes a character inside a string.
  function EscapeChar(c: char): (r: string)
    ensures r != []
  {
    if c == '"' || c == '\\' then ['\\', c]
    else if c == '\n' then "\\n"
    else if c == '\r' then "\\r"
    else if c == '\t' then "\\t"
    else if c == '\U{08}' then "\\b"
    else if c == '\U{0C}' then "\\f"
    else if c < ' ' then "\\u00" + [if c < '\U{10}' then '0' else '1', "0123456789abcdef"[c as int % 16]]
    else [c]
  }

  function Escape(s: string): (r: string)
    ensures |r| >= |s|
  {
    if s == [] then [] else EscapeChar(s[0]) + Escape(s[1..])
  }

  function ReplaceAll(text: string, needle: string): string
    requires needle != []
  {
    if text == [] then []
    else if needle <= text then MARKER + ReplaceAll(text[|needle|..], needle)
    else [text[0]] + ReplaceAll(text[1..], needle)
  }

  function RedactOne(text: string, secret: string): string {
    if |secret| < MIN_SECRET then text
    else ReplaceAll(ReplaceAll(text, secret), Escape(secret))
  }

  function Redact(text: string, secrets: seq<string>): string
    decreases |secrets|
  {
    if secrets == [] then text else Redact(RedactOne(text, secrets[0]), secrets[1..])
  }

  // What the call site passes: distinct secrets worth hiding, the longest first.
  ghost predicate Prepared(secrets: seq<string>) {
    && (forall i, j :: 0 <= i < j < |secrets| ==> |secrets[i]| >= |secrets[j]| && secrets[i] != secrets[j])
    && (forall s :: s in secrets ==> |s| >= MIN_SECRET)
  }

  // s, laid over the marker k places after its start, agrees with it wherever the two overlap.
  predicate FitsAt(s: string, k: int) {
    forall j :: 0 <= j < |s| && 0 <= j + k < |MARKER| ==> s[j] == MARKER[j + k]
  }

  ghost predicate Interlocks(s: string) {
    exists k :: -|s| < k < |MARKER| && FitsAt(s, k)
  }

  // ----- what one replacement does ------------------------------------------

  lemma {:induction false} AbsentUnchanged(text: string, needle: string)
    requires needle != [] && !Contains(text, needle)
    ensures ReplaceAll(text, needle) == text
  {
    if text == [] {
    } else {
      assert !OccursAt(text, needle, 0);
      LaterAbsent(text, needle);
      AbsentUnchanged(text[1..], needle);
    }
  }

  lemma LaterAbsent(text: string, needle: string)
    requires text != [] && !Contains(text, needle)
    ensures !Contains(text[1..], needle)
  {
    if Contains(text[1..], needle) {
      var i: nat :| i <= |text[1..]| && OccursAt(text[1..], needle, i);
      OccursInSuffix(text, 1, needle, i);
    }
  }

  lemma {:induction false} LeftmostAt(text: string, needle: string, at: nat)
    requires needle != [] && OccursAt(text, needle, at)
    requires forall i: nat :: i < at ==> !OccursAt(text, needle, i)
    ensures ReplaceAll(text, needle) == text[..at] + (MARKER + ReplaceAll(text[at + |needle|..], needle))
  {
    if at == 0 {
      assert needle <= text;
    } else {
      assert !OccursAt(text, needle, 0);
      forall i: nat | i < at ensures OccursAt(text[1..], needle, i) <==> OccursAt(text, needle, i + 1) {
        assert i + 1 + |needle| <= |text| ==> text[1..][i..i + |needle|] == text[i + 1..i + 1 + |needle|];
      }
      OccursInSuffix(text, 1, needle, at - 1);
      LeftmostAt(text[1..], needle, at - 1);
      assert text[1..][at - 1 + |needle|..] == text[at + |needle|..];
      OneKept(text, needle);
      Rejoined(text[0], text[1..][..at - 1], MARKER + ReplaceAll(text[at + |needle|..], needle));
      assert text[..at] == [text[0]] + text[1..][..at - 1];
    }
  }

  lemma OneKept(text: string, needle: string)
    requires needle != [] && text != [] && !OccursAt(text, needle, 0)
    ensures ReplaceAll(text, needle) == [text[0]] + ReplaceAll(text[1..], needle)
  {}

  lemma Rejoined(c: char, u: string, rest: string)
    ensures [c] + (u + rest) == ([c] + u) + rest
  {}

  // The leftmost occurrence becomes the marker and the search goes on behind it; with
  // AbsentUnchanged this determines the whole result.
  lemma LeftmostReplaced(u: string, needle: string, v: string)
    requires needle != []
    requires forall i: nat :: i < |u| ==> !OccursAt(u + needle + v, needle, i)
    ensures ReplaceAll(u + needle + v, needle) == u + MARKER + ReplaceAll(v, needle)
  {
    var text := u + needle + v;
    assert text[|u|..|u| + |needle|] == needle && text[..|u|] == u && text[|u| + |needle|..] == v;
    LeftmostAt(text, needle, |u|);
  }

  lemma NoFit(s: string, k: int)
    requires !Interlocks(s) && -|s| < k < |MARKER|
    ensures !FitsAt(s, k)
  {}

  // The rest of s, from its q-th character on, survived a replacement only if it stood there.
  lemma {:induction false} RestKept(text: string, needle: string, s: string, q: nat)
    requires needle != [] && q < |s| && !Interlocks(s)
    requires s[q..] <= ReplaceAll(text, needle)
    ensures !(needle <= text) && s[q..] <= text
    decreases |s| - q
  {
    var out := ReplaceAll(text, needle);
    assert s[q..][0] == out[0];
    var k: int := 0 - q;
    if needle <= text {
      forall j | 0 <= j < |s| && 0 <= j + k < |MARKER| ensures s[j] == MARKER[j + k] {
        assert s[j] == s[q..][j - q] == out[j - q];
      }
      NoFit(s, k);
    }
    assert text != [];
    if q + 1 < |s| {
      assert s[q + 1..] == s[q..][1..] && out[1..] == ReplaceAll(text[1..], needle);
      RestKept(text[1..], needle, s, q + 1);
      assert text == [text[0]] + text[1..];
    }
    assert s[q..] == [s[q]] + s[q + 1..];
  }

  lemma BehindMarker(rest: string, s: string, i: nat)
    requires !Interlocks(s) && s != [] && OccursAt(MARKER + rest, s, i)
    ensures i >= |MARKER| && OccursAt(rest, s, i - |MARKER|)
  {
    var out := MARKER + rest;
    if i < |MARKER| {
      forall j | 0 <= j < |s| && 0 <= j + i < |MARKER| ensures s[j] == MARKER[j + i] {
        assert out[i + j] == out[i..i + |s|][j] == s[j];
      }
      NoFit(s, i);
    } else {
      assert out[|MARKER|..] == rest;
      OccursInSuffix(out, |MARKER|, s, i - |MARKER|);
    }
  }

  // Replacing one text never completes another: an occurrence of s in the result was there
  // before, and it is not one of the text that was replaced.
  lemma {:induction false} NothingCompleted(text: string, needle: string, s: string, i: nat)
    requires needle != [] && s != [] && !Interlocks(s)
    requires OccursAt(ReplaceAll(text, needle), s, i)
    ensures Contains(text, s) && s != needle
    decreases |text|
  {
    if text == [] {
      assert false;
    } else if needle <= text {
      var rest := text[|needle|..];
      BehindMarker(ReplaceAll(rest, needle), s, i);
      NothingCompleted(rest, needle, s, i - |MARKER|);
      LiftContains(text, |needle|, s);
    } else if i == 0 {
      RestKept(text, needle, s, 0);
      assert OccursAt(text, s, 0);
    } else {
      OneBehind(text[0], ReplaceAll(text[1..], needle), s, i);
      NothingCompleted(text[1..], needle, s, i - 1);
      LiftContains(text, 1, s);
    }
  }

  lemma OneBehind(c: char, rest: string, s: string, i: nat)
    requires i > 0 && OccursAt([c] + rest, s, i)
    ensures OccursAt(rest, s, i - 1)
  {
    assert ([c] + rest)[1..] == rest;
    OccursInSuffix([c] + rest, 1, s, i - 1);
  }

  lemma LiftContains(text: string, from: nat, s: string)
    requires from <= |text| && Contains(text[from..], s)
    ensures Contains(text, s)
  {
    var i: nat :| i <= |text[from..]| && OccursAt(text[from..], s, i);
    OccursInSuffix(text, from, s, i);
  }

  // One secret: its plain and its escaped form go, and no form of another secret comes back.
  lemma OneAbsence(text: string, secret: string, form: string)
    requires form != [] && !Interlocks(form)
    requires !Contains(text, form) || (|secret| >= MIN_SECRET && (form == secret || form == Escape(secret)))
    ensures !Contains(RedactOne(text, secret), form)
  {
    if |secret| >= MIN_SECRET {
      var once := ReplaceAll(text, secret);
      var twice := ReplaceAll(once, Escape(secret));
      assert Contains(once, form) ==> form != secret && Contains(text, form) by {
        if i: nat :| i <= |once| && OccursAt(once, form, i) {
          NothingCompleted(text, secret, form, i);
        }
      }
      assert Contains(twice, form) ==> form != Escape(secret) && Contains(once, form) by {
        if i: nat :| i <= |twice| && OccursAt(twice, form, i) {
          NothingCompleted(once, Escape(secret), form, i);
        }
      }
    }
  }

  // ----- the whole fold -----------------------------------------------------

  // A secret that cannot interlock with the marker is gone from the output, whatever is
  // replaced before and after it.
  lemma {:induction false} SecretGone(text: string, secrets: seq<string>, s: string)
    requires |s| >= MIN_SECRET && !Interlocks(s)
    requires !Contains(text, s) || s in secrets
    ensures !Contains(Redact(text, secrets), s)
    decreases |secrets|
  {
    if secrets == [] {
    } else {
      if !Contains(text, s) || secrets[0] == s {
        OneAbsence(text, secrets[0], s);
      }
      SecretGone(RedactOne(text, secrets[0]), secrets[1..], s);
    }
  }

  // The same holds of the secret as JSON writes it.
  lemma {:induction false} EscapedSecretGone(text: string, secrets: seq<string>, s: string)
    requires |s| >= MIN_SECRET && !Interlocks(Escape(s))
    requires !Contains(text, Escape(s)) || s in secrets
    ensures !Contains(Redact(text, secrets), Escape(s))
    decreases |secrets|
  {
    if secrets == [] {
    } else {
      if !Contains(text, Escape(s)) || secrets[0] == s {
        OneAbsence(text, secrets[0], Escape(s));
      }
      EscapedSecretGone(RedactOne(text, secrets[0]), secrets[1..], s);
    }
  }

  lemma OnceReplaced(u: string, needle: string, v: string)
    requires needle != [] && !Contains(v, needle)
    requires forall i: nat :: i < |u| ==> !OccursAt(u + needle + v, needle, i)
    ensures ReplaceAll(u + needle + v, needle) == u + "[REDACTED]" + v
  {
    LeftmostReplaced(u, needle, v);
    AbsentUnchanged(v, needle);
  }

  // Where a secret stands once, plain or as JSON writes it, the marker stands afterwards.
  lemma SecretReplaced(u: string, s: string, v: string, text: string)
    requires |s| >= MIN_SECRET && text == u + s + v && !Contains(v, s) && !Contains(u + MARKER + v, Escape(s))
    requires forall i: nat :: i < |u| ==> !OccursAt(text, s, i)
    ensures RedactOne(text, s) == u + "[REDACTED]" + v
  {
    OnceReplaced(u, s, v);
    AbsentUnchanged(u + MARKER + v, Escape(s));
  }

  lemma EscapedSecretReplaced(u: string, s: string, v: string, text: string)
    requires |s| >= MIN_SECRET && text == u + Escape(s) + v && !Contains(text, s) && !Contains(v, Escape(s))
    requires forall i: nat :: i < |u| ==> !OccursAt(text, Escape(s), i)
    ensures RedactOne(text, s) == u + "[REDACTED]" + v
  {
    AbsentUnchanged(text, s);
    OnceReplaced(u, Escape(s), v);
  }

  lemma {:induction false} CleanUnchanged(text: string, secrets: seq<string>)
    requires forall s :: s in secrets && |s| >= MIN_SECRET ==> !Contains(text, s) && !Contains(text, Escape(s))
    ensures Redact(text, secrets) == text
  {
    if secrets == [] {
    } else {
      if |secrets[0]| >= MIN_SECRET {
        assert secrets[0] in secrets;
        AbsentUnchanged(text, secrets[0]);
        AbsentUnchanged(text, Escape(secrets[0]));
      }
      CleanUnchanged(text, secrets[1..]);
    }
  }

  lemma PlainSecretsNeverInterlock(s: string)
    requires |s| >= MIN_SECRET && '[' !in s && ']' !in s && s != "REDACTED"
    ensures !Interlocks(s)
  {
    forall k | -|s| < k < |MARKER| ensures !FitsAt(s, k) {
      if k <= 0 {
        assert s[-k] != MARKER[-k + k];
      } else if k + |s| >= |MARKER| {
        var last := |MARKER| - 1 - k;
        assert s[last] != MARKER[last + k];
      } else {
        assert FitsAt(s, k) ==> s == "REDACTED";
      }
    }
  }

  // Escaping adds no brackets, and changes a text only by writing a backslash.
  lemma {:induction false} EscapeAdds(s: string, bracket: char)
    requires bracket == '[' || bracket == ']'
    ensures bracket in Escape(s) ==> bracket in s
  {
    if s == [] {
    } else {
      EscapeAdds(s[1..], bracket);
      CharAdds(s[0]);
    }
  }

  lemma {:induction false} EscapeShows(s: string)
    ensures '\\' !in Escape(s) ==> Escape(s) == s
  {
    if s == [] {
    } else {
      EscapeShows(s[1..]);
      CharAdds(s[0]);
    }
  }

  lemma CharAdds(c: char)
    ensures '[' in EscapeChar(c) ==> c == '['
    ensures ']' in EscapeChar(c) ==> c == ']'
    ensures EscapeChar(c) != [c] ==> '\\' in EscapeChar(c)
  {
    assert EscapeChar(c) != [c] ==> EscapeChar(c)[0] == '\\';
    assert forall i :: 0 <= i < 16 ==> "0123456789abcdef"[i] != '[' && "0123456789abcdef"[i] != ']';
  }

  lemma PlainEscapesNeverInterlock(s: string)
    requires |s| >= MIN_SECRET && '[' !in s && ']' !in s && s != "REDACTED"
    ensures !Interlocks(Escape(s))
  {
    EscapeAdds(s, '[');
    EscapeAdds(s, ']');
    EscapeShows(s);
    NoBrackets(s, Escape(s));
  }

  lemma NoBrackets(s: string, form: string)
    requires MIN_SECRET <= |s| <= |form| && '[' !in form && ']' !in form && s != "REDACTED"
    requires '\\' !in form ==> form == s
    ensures !Interlocks(form)
  {
    assert '\\' !in "REDACTED";
    PlainSecretsNeverInterlock(form);
  }

  // ----- reading JSON back --------------------------------------------------

  function HexValue(c: char): Option<nat> {
    if '0' <= c <= '9' then Some(c as nat - '0' as nat)
    else if 'a' <= c <= 'f' then Some(c as nat - 'a' as nat + 10)
    else if 'A' <= c <= 'F' then Some(c as nat - 'A' as nat + 10)
    else None
  }

  // The character behind a backslash and how many characters its escape takes (RFC 8259,
  // section 7). A code that is no character by itself is not read.
  function UnescapeChar(t: string): Option<(char, nat)>
    requires |t| >= 2
  {
    match t[1]
    case '"' => Some(('"', 2))
    case '\\' => Some(('\\', 2))
    case '/' => Some(('/', 2))
    case 'b' => Some(('\U{08}', 2))
    case 'f' => Some(('\U{0C}', 2))
    case 'n' => Some(('\n', 2))
    case 'r' => Some(('\r', 2))
    case 't' => Some(('\t', 2))
    case 'u' =>
      if |t| < 6 then None
      else
        (match (HexValue(t[2]), HexValue(t[3]), HexValue(t[4]), HexValue(t[5]))
         case (Some(a), Some(b), Some(c), Some(d)) =>
           var code := 4096 * a + 256 * b + 16 * c + d;
           if code < 0xD800 then Some((code as char, 6)) else None
         case _ => None)
    case _ => None
  }

  function Unescape(t: string): Option<string>
    decreases |t|
  {
    if t == [] then Some([])
    else if t[0] == '\\' then
      if |t| < 2 then None
      else
        match UnescapeChar(t)
        case None => None
        case Some((c, n)) =>
          if n > |t| || n == 0 then None
          else
            var rest := Unescape(t[n..]);
            if rest.None? then None else Some([c] + rest.value)
    else if t[0] == '"' || t[0] < ' ' then None
    else
      var rest := Unescape(t[1..]);
      if rest.None? then None else Some([t[0]] + rest.value)
  }

  // Which characters are escaped, and which of them have a short form.
  lemma EscapesAre(c: char)
    ensures EscapeChar(c) == [c] <==> c >= ' ' && c != '"' && c != '\\'
    ensures |EscapeChar(c)| == 2 <==> c in "\"\\\n\r\t\U{08}\U{0C}"
    ensures EscapeChar(c) != [c] ==> EscapeChar(c)[0] == '\\' && (|EscapeChar(c)| == 2 || |EscapeChar(c)| == 6)
    ensures forall x :: x in EscapeChar(c) && 'A' <= x <= 'Z' ==> x == c
  {}

  lemma HexDigits(i: nat)
    requires i < 16
    ensures HexValue("0123456789abcdef"[i]) == Some(i)
  {}

  lemma LongReadBack(c: char, t: string)
    requires |EscapeChar(c)| == 6 && EscapeChar(c) <= t
    ensures UnescapeChar(t) == Some((c, 6))
  {
    HexDigits(c as int % 16);
  }

  lemma ShortReadBack(c: char, t: string)
    requires |EscapeChar(c)| == 2 && EscapeChar(c) <= t
    ensures UnescapeChar(t) == Some((c, 2))
  {}

  lemma ReadEscape(e: string, rest: string, c: char)
    requires |e| >= 2 && e[0] == '\\' && UnescapeChar(e + rest) == Some((c, |e|)) && Unescape(rest).Some?
    ensures Unescape(e + rest) == Some([c] + Unescape(rest).value)
  {
    assert (e + rest)[|e|..] == rest;
  }

  lemma ReadPlain(c: char, rest: string)
    requires c >= ' ' && c != '"' && c != '\\' && Unescape(rest).Some?
    ensures Unescape([c] + rest) == Some([c] + Unescape(rest).value)
  {
    assert ([c] + rest)[1..] == rest;
  }

  lemma OneReadBack(c: char, rest: string)
    requires Unescape(rest).Some?
    ensures Unescape(EscapeChar(c) + rest) == Some([c] + Unescape(rest).value)
  {
    EscapesAre(c);
    if EscapeChar(c) == [c] {
      ReadPlain(c, rest);
    } else {
      if |EscapeChar(c)| == 6 {
        LongReadBack(c, EscapeChar(c) + rest);
      } else {
        ShortReadBack(c, EscapeChar(c) + rest);
      }
      ReadEscape(EscapeChar(c), rest, c);
    }
  }

  // Reading an escaped secret as JSON gives the secret.
  lemma {:induction false} EscapeReadsBack(s: string)
    ensures Unescape(Escape(s)) == Some(s)
  {
    if s == [] {
    } else {
      EscapeReadsBack(s[1..]);
      OneReadBack(s[0], Escape(s[1..]));
      assert Escape(s) == EscapeChar(s[0]) + Escape(s[1..]);
      assert s == [s[0]] + s[1..];
    }
  }

  // ----- exactly when -------------------------------------------------------

  predicate Fresh(c: char, s: string) {
    c !in s && c !in Escape(s) && c !in MARKER && EscapeChar(c) == [c]
  }

  function Repeat(c: char, n: nat): (r: string)
    ensures |r| == n && forall i :: 0 <= i < n ==> r[i] == c
  {
    if n == 0 then [] else [c] + Repeat(c, n - 1)
  }

  lemma EscapeRepeat(c: char, n: nat)
    requires EscapeChar(c) == [c]
    ensures Escape(Repeat(c, n)) == Repeat(c, n)
  {
    if n == 0 {
    } else {
      assert Repeat(c, n)[1..] == Repeat(c, n - 1);
      EscapeRepeat(c, n - 1);
    }
  }

  // Around a run of c only what fits on one side of it can occur without c.
  lemma AbsentAround(u: string, run: string, v: string, c: char, needle: string)
    requires c !in needle && run != [] && forall i :: 0 <= i < |run| ==> run[i] == c
    requires |needle| > |u| && |needle| > |v|
    ensures !Contains(u + run + v, needle)
  {
    var text := u + run + v;
    forall i: nat | i <= |text| ensures !OccursAt(text, needle, i) {
      if i + |needle| <= |text| {
        var at := if i <= |u| then |u| else i;
        assert text[at] == run[at - |u|];
        if OccursAt(text, needle, i) {
          CharAt(text, needle, i, at);
        }
      }
    }
  }

  lemma CharAt(text: string, needle: string, i: nat, at: nat)
    requires OccursAt(text, needle, i) && i <= at < i + |needle|
    ensures text[at] == needle[at - i]
  {
    assert text[i..i + |needle|][at - i] == text[at];
  }

  lemma AbsentWithout(text: string, c: char, needle: string)
    requires c !in text && needle != [] && needle[0] == c
    ensures !Contains(text, needle)
  {
    forall i: nat | i <= |text| ensures !OccursAt(text, needle, i) {
      if i + |needle| <= |text| {
        assert text[i] in text;
        if OccursAt(text, needle, i) {
          CharAt(text, needle, i, i);
        }
      }
    }
  }

  // What of s lies before and after the marker when s is laid over it at k.
  function Before(s: string, k: int): string
    requires -|s| < k < |MARKER|
  {
    if k < 0 then s[..-k] else []
  }

  function After(s: string, k: int): string
    requires -|s| < k < |MARKER|
  {
    if |MARKER| - k < |s| then s[|MARKER| - k..] else []
  }

  lemma FitRejoins(s: string, k: int)
    requires -|s| < k < |MARKER| && FitsAt(s, k)
    ensures Contains(Before(s, k) + MARKER + After(s, k), s)
  {
    var out := Before(s, k) + MARKER + After(s, k);
    var at := if k < 0 then 0 else k;
    forall j | 0 <= j < |s| ensures out[at + j] == s[j] {
      if 0 <= j + k < |MARKER| {
        assert s[j] == MARKER[j + k];
      }
    }
    assert out[at..at + |s|] == s;
    assert OccursAt(out, s, at);
  }

  lemma RunRedacted(s: string, u: string, c: char, v: string)
    requires |s| >= MIN_SECRET && Fresh(c, s)
    requires |u| < |s| && |v| < |s| && c !in u && c !in v
    ensures Redact(u + Repeat(c, MIN_SECRET) + v, [s, Repeat(c, MIN_SECRET)]) == u + MARKER + v
  {
    var p := Repeat(c, MIN_SECRET);
    var text := u + p + v;
    AbsentAround(u, p, v, c, s);
    AbsentAround(u, p, v, c, Escape(s));
    AbsentUnchanged(text, s);
    AbsentUnchanged(text, Escape(s));
    EscapeRepeat(c, MIN_SECRET);
    RunReplaced(u, c, v);
    AbsentWithout(u + MARKER + v, c, p);
    AbsentUnchanged(u + MARKER + v, p);
    assert [s, p][1..] == [p] && [p][1..] == [];
    assert Redact(text, [s, p]) == Redact(text, [p]) == Redact(u + MARKER + v, []);
  }

  ghost predicate Leaky(s: string) {
    exists text, secrets :: Leaks(text, secrets, s)
  }

  ghost predicate Leaks(text: string, secrets: seq<string>, s: string) {
    Prepared(secrets) && s in secrets && Contains(Redact(text, secrets), s)
  }

  // A secret that does interlock is put back together when a later secret standing between
  // its two ends is replaced.
  lemma Interlocked(s: string, k: int, c: char) returns (text: string)
    requires |s| >= MIN_SECRET && -|s| < k < |MARKER| && FitsAt(s, k) && Fresh(c, s)
    ensures Leaks(text, [s, Repeat(c, MIN_SECRET)], s)
  {
    text := Before(s, k) + Repeat(c, MIN_SECRET) + After(s, k);
    assert Repeat(c, MIN_SECRET)[0] == c;
    RunRedacted(s, Before(s, k), c, After(s, k));
    FitRejoins(s, k);
  }

  lemma RunReplaced(u: string, c: char, v: string)
    requires c !in u && c !in v
    ensures ReplaceAll(u + Repeat(c, MIN_SECRET) + v, Repeat(c, MIN_SECRET)) == u + MARKER + v
  {
    var p := Repeat(c, MIN_SECRET);
    forall i: nat | i < |u| ensures !OccursAt(u + p + v, p, i) {
      assert (u + p + v)[i] == u[i];
      if OccursAt(u + p + v, p, i) {
        CharAt(u + p + v, p, i, i);
      }
    }
    LeftmostReplaced(u, p, v);
    AbsentWithout(v, c, p);
    AbsentUnchanged(v, p);
  }

  lemma InterlockingLeaks(s: string, c: char)
    requires |s| >= MIN_SECRET && Fresh(c, s) && Interlocks(s)
    ensures Leaky(s)
  {
    var k :| -|s| < k < |MARKER| && FitsAt(s, k);
    var text := Interlocked(s, k, c);
  }

  lemma OthersNeverLeak(s: string)
    requires |s| >= MIN_SECRET && !Interlocks(s)
    ensures !Leaky(s)
  {
    forall text, secrets ensures !Leaks(text, secrets, s) {
      if s in secrets {
        SecretGone(text, secrets, s);
      }
    }
  }

  // ----- there is always a character left -----------------------------------

  // The characters outside ASCII, numbered; none of them is escaped.
  const LETTERS: nat := 0x110000 - 0x80 - 0x800

  function Letter(i: nat): (c: char)
    requires i < LETTERS
    ensures c as int >= 0x80 && EscapeChar(c) == [c]
  {
    if i < 0xD800 - 0x80 then (i + 0x80) as char else (i + 0x80 + 0x800) as char
  }

  lemma LettersDiffer(i: nat, j: nat)
    requires i < j < LETTERS
    ensures Letter(i) as int < Letter(j) as int
  {}

  function Letters(n: nat): (r: set<char>)
    requires n <= LETTERS
    ensures forall c :: c in r ==> exists i :: 0 <= i < n && c == Letter(i)
  {
    if n == 0 then {} else Letters(n - 1) + {Letter(n - 1)}
  }

  lemma {:induction false} LettersSize(n: nat)
    requires n <= LETTERS
    ensures |Letters(n)| == n
  {
    if n == 0 {
    } else {
      LettersSize(n - 1);
      forall i: nat | i < n - 1 ensures Letter(i) != Letter(n - 1) {
        LettersDiffer(i, n - 1);
      }
      assert Letter(n - 1) !in Letters(n - 1);
    }
  }

  function CharsOf(s: string): set<char> {
    set c | c in s
  }

  lemma {:induction false} CharsSize(s: string)
    ensures |CharsOf(s)| <= |s|
  {
    if s == [] {
    } else {
      CharsSize(s[1..]);
      assert CharsOf(s) == CharsOf(s[1..]) + {s[0]};
    }
  }

  lemma {:induction false} EscapeKeepsOthers(s: string, c: char)
    requires c as int >= 0x80 && c !in s
    ensures c !in Escape(s)
  {
    if s == [] {
    } else {
      EscapeKeepsOthers(s[1..], c);
      assert c !in EscapeChar(s[0]);
    }
  }

  lemma FreshExists(s: string) returns (c: char)
    requires |s| < LETTERS
    ensures Fresh(c, s)
  {
    var n := |s| + 1;
    LettersSize(n);
    CharsSize(s);
    if Letters(n) <= CharsOf(s) {
      SubsetSize(Letters(n), CharsOf(s));
    }
    c :| c in Letters(n) && c !in CharsOf(s);
    EscapeKeepsOthers(s, c);
  }

  // The fold hides s in every text and for every list the daemon passes exactly when s cannot
  // interlock with the marker.
  lemma RedactionIsExact(s: string)
    requires MIN_SECRET <= |s| < LETTERS
    ensures Leaky(s) <==> Interlocks(s)
  {
    if Interlocks(s) {
      var c := FreshExists(s);
      InterlockingLeaks(s, c);
    } else {
      OthersNeverLeak(s);
    }
  }

  // A secret that ends in an opening bracket reappears: its last character is then supplied
  // by the marker of the secret next to it.
  lemma BracketReappears(s: string)
    requires MIN_SECRET <= |s| < LETTERS && s[|s| - 1] == '['
    ensures Leaky(s)
  {
    assert FitsAt(s, 1 - |s|);
    RedactionIsExact(s);
  }

  lemma BracketedSecretLeaks()
    ensures Leaky("xxxxxxx[")
  {
    BracketReappears("xxxxxxx[");
  }
}
