/** The post-processing `sendMessageToChat` applies to the chat model's
    reply: code-fence stripping, the empty-output placeholder and the
    failure message. The chat call itself is a parameter: its outcome is
    given as a `Reply`. */
module GeminiService {
  import opened Values
  import opened JsString

  /** The Markdown code-fence marker the model sometimes emits. */
  const Fence := "```"
  /** Returned in place of an empty result. */
  const Placeholder := "% No output generated."
  /** Message of the error raised when the failure carries no message. */
  const GenericFailure := "Failed to generate LaTeX."

  /** What the chat call produced: a response whose `text` may be absent, or
      a failure whose `message` may be absent. */
  datatype Reply = Answered(text: Option<string>) | Failed(message: Option<string>)

  /** ASCII lower-casing of one character. With the `i` flag and no `u`
      flag a regular expression compares characters after upper-casing them,
      and never lets a non-ASCII character fold onto an ASCII one, so a
      character matches a lower-case ASCII letter case-insensitively exactly
      when its ASCII lower case is that letter. */
  function LowerAscii(c: char): (r: char)
    ensures 'A' <= c <= 'Z' ==> 'a' <= r <= 'z' && r as int - c as int == 32
    ensures !('A' <= c <= 'Z') ==> r == c
  {
    if 'A' <= c <= 'Z' then (c as int + 32) as char else c
  }

  /** `w` is "latex" in some mix of letter cases. */
  predicate IsLatexTag(w: string) {
    && |w| == 5
    && LowerAscii(w[0]) == 'l' && LowerAscii(w[1]) == 'a' && LowerAscii(w[2]) == 't'
    && LowerAscii(w[3]) == 'e' && LowerAscii(w[4]) == 'x'
  }

  /** Three backticks start at position `k` of `s`. */
  predicate FenceAt(s: string, k: int) {
    0 <= k && k + 3 <= |s| && s[k] == '`' && s[k + 1] == '`' && s[k + 2] == '`'
  }

  /** What `^```` matches. */
  predicate StartsWithFence(s: string) {
    FenceAt(s, 0)
  }

  /** What "```$" matches: a fence that is the last three characters. */
  predicate EndsWithFence(s: string) {
    FenceAt(s, |s| - 3)
  }

  /** `s` starts with what `^```latex` matches case-insensitively. */
  predicate HasLatexFence(s: string) {
    && StartsWithFence(s) && |s| >= 8
    && LowerAscii(s[3]) == 'l' && LowerAscii(s[4]) == 'a' && LowerAscii(s[5]) == 't'
    && LowerAscii(s[6]) == 'e' && LowerAscii(s[7]) == 'x'
  }

  /** The first replacement: at the very start, "```latex" in any letter
      case followed by the longest run of white space is removed. */
  function StripLatexFence(s: string): (r: string)
    ensures |r| <= |s| && r == s[|s| - |r|..]
    ensures !HasLatexFence(s) ==> r == s
    ensures HasLatexFence(s) ==>
              8 <= |s| - |r| && SpacesBetween(s, 8, |s| - |r|) && (r == "" || !IsSpace(r[0]))
  {
    if HasLatexFence(s) then s[SkipSpacesFrom(s, 8)..] else s
  }

  /** The second replacement: at the very start, "```" followed by the
      longest run of white space is removed. */
  function StripOpeningFence(s: string): (r: string)
    ensures |r| <= |s| && r == s[|s| - |r|..]
    ensures !StartsWithFence(s) ==> r == s
    ensures StartsWithFence(s) ==>
              3 <= |s| - |r| && SpacesBetween(s, 3, |s| - |r|) && (r == "" || !IsSpace(r[0]))
  {
    if StartsWithFence(s) then s[SkipSpacesFrom(s, 3)..] else s
  }

  /** `replace(/```$/i, '')`: without the `m` flag `$` is the end of the
      whole string, so only a fence that is its last three characters goes,
      and only once. */
  function StripClosingFence(s: string): (r: string)
    ensures |r| <= |s| && r == s[..|r|]
    ensures EndsWithFence(s) ==> r + Fence == s
    ensures !EndsWithFence(s) ==> r == s
  {
    if EndsWithFence(s) then s[..|s| - 3] else s
  }

  /** The chain of three replacements, in the order `sendMessageToChat` applies them. */
  function StripFences(t: string): (r: string)
    ensures |r| <= |t|
  {
    StripClosingFence(StripOpeningFence(StripLatexFence(t)))
  }

  /** The value `sendMessageToChat` returns for a response text: the
      stripping runs only on a non-empty text, and an empty outcome becomes
      the placeholder. */
  function Sanitise(text: Option<string>): (r: string)
    ensures r != ""
    ensures text.None? ==> r == Placeholder
  {
    match text
    case None => Placeholder
    case Some(t) =>
      var cleaned := if t != "" then StripFences(t) else t;
      if cleaned != "" then cleaned else Placeholder
  }

  /** The message of the error `sendMessageToChat` throws: the failure's own
      message, unless it is empty or absent. */
  function FailureMessage(message: Option<string>): (r: string)
    ensures r != ""
    ensures message.Some? && message.value != "" ==> r == message.value
    ensures message.None? || message.value == "" ==> r == GenericFailure
  {
    if message.Some? && message.value != "" then message.value else GenericFailure
  }

  /** `sendMessageToChat` as a whole: the resolved string or the rejection's
      message. Neither is ever empty. */
  function SendMessage(reply: Reply): (r: Result<string, string>)
    ensures r.Ok? <==> reply.Answered?
    ensures r.Ok? ==> r.value != ""
    ensures r.Err? ==> r.reason != ""
  {
    match reply
    case Answered(text) => Ok(Sanitise(text))
    case Failed(message) => Err(FailureMessage(message))
  }

  // ---------------------------------------------------------------------
  // Properties of the sanitiser

  /** Nothing is ever empty: an absent or empty text, or one the stripping
      empties, yields exactly the placeholder; otherwise the stripped text. */
  lemma SanitiseOutcome(text: Option<string>)
    ensures (text.None? || text.value == "" || StripFences(text.value) == "")
            ==> Sanitise(text) == Placeholder
    ensures (text.Some? && text.value != "" && StripFences(text.value) != "")
            ==> Sanitise(text) == StripFences(text.value)
  {
  }

  /** The stripping only cuts characters off the two ends: the result is
      the piece of `t` from `i` to `j`. */
  lemma StripFencesIsSlice(t: string) returns (i: nat, j: nat)
    ensures i <= j <= |t| && StripFences(t) == t[i..j]
  {
    var a := StripLatexFence(t);
    var b := StripOpeningFence(a);
    var c := StripClosingFence(b);
    assert c == StripFences(t);
    i, j := PrefixOfSuffixOfSuffix(t, a, b, c);
  }

  /** Taking a suffix twice and then a prefix leaves a contiguous piece. */
  lemma PrefixOfSuffixOfSuffix(t: string, a: string, b: string, c: string) returns (i: nat, j: nat)
    requires |a| <= |t| && a == t[|t| - |a|..]
    requires |b| <= |a| && b == a[|a| - |b|..]
    requires |c| <= |b| && c == b[..|c|]
    ensures i <= j <= |t| && c == t[i..j]
  {
    i, j := |t| - |b|, |t| - |b| + |c|;
    assert b == t[i..];
  }

  /** Any output that is not the placeholder is the piece of the raw text
      from `i` to `j`, and so no longer than it. */
  lemma SanitiseIsSliceOfRaw(text: Option<string>) returns (i: nat, j: nat)
    ensures Sanitise(text) == Placeholder
            || (text.Some? && i <= j <= |text.value| && Sanitise(text) == text.value[i..j])
  {
    i, j := 0, 0;
    if text.Some? && text.value != "" {
      i, j := StripFencesIsSlice(text.value);
    }
  }

  /** A non-empty text that neither starts nor ends with a fence comes back
      unchanged, even when it is all white space. */
  lemma UnfencedUnchanged(t: string)
    requires t != ""
    requires !StartsWithFence(t) && !EndsWithFence(t)
    ensures Sanitise(Some(t)) == t
  {
  }

  /** A fully fenced document — an opening fence tagged "latex" in any
      letter case, any white space, the body, a closing fence — yields the
      body, provided the body is non-empty and starts with neither white
      space nor a backtick. A newline before the closing fence is part of
      the body and survives. */
  lemma FencedRoundTrip(tag: string, ws: string, body: string)
    requires IsLatexTag(tag)
    requires AllSpaces(ws)
    requires body != "" && !IsSpace(body[0]) && body[0] != '`'
    ensures Sanitise(Some(Fence + tag + ws + body + Fence)) == body
  {
    var s := Fence + tag + ws + body + Fence;
    var e := 8 + |ws|;
    assert s[0] == s[1] == s[2] == '`';
    assert s[3] == tag[0] && s[4] == tag[1] && s[5] == tag[2] && s[6] == tag[3] && s[7] == tag[4];
    assert HasLatexFence(s);
    assert SpacesBetween(s, 8, e) by {
      forall k | 8 <= k < e ensures IsSpace(s[k]) { assert s[k] == ws[k - 8]; }
    }
    assert s[e] == body[0];
    SkipSpacesOverRun(s, 8, e);
    var a := StripLatexFence(s);
    assert a == s[e..] == body + Fence;
    assert !StartsWithFence(a) by { assert a[0] == body[0]; }
    assert EndsWithFence(a) by { assert a[|a| - 3..] == Fence; }
    assert StripClosingFence(a) == body;
  }

  /** A fenced document with a mixed-case tag: the fences go, the newline
      before the closing fence stays. */
  lemma MixedCaseFencedDocument()
    ensures var body := "\\begin{document}\n";
            Sanitise(Some(Fence + "LaTeX" + "\n" + body + Fence)) == body
  {
    var body := "\\begin{document}\n";
    assert IsLatexTag("LaTeX");
    assert body[0] == '\\';
    FencedRoundTrip("LaTeX", "\n", body);
  }

  /** Only the very end counts: a fence followed by a newline is kept. */
  lemma FenceBeforeNewlineKept()
    ensures Sanitise(Some("X```\n")) == "X```\n"
  {
    var s := "X```\n";
    assert s[0] == 'X' && s[4] == '\n';
    UnfencedUnchanged(s);
  }

  /** The closing fence is removed at most once. */
  lemma DoubleClosingFence()
    ensures Sanitise(Some("X``````")) == "X```"
  {
    var s := "X``````";
    assert s[0] == 'X' && !StartsWithFence(s);
    assert StripLatexFence(s) == s && StripOpeningFence(s) == s;
    assert EndsWithFence(s);
    assert StripClosingFence(s) + Fence == s;
    assert StripClosingFence(s) == "X```";
  }

  /** A bare fence after the LaTeX fence is stripped as well. */
  lemma LatexFenceThenBareFence()
    ensures Sanitise(Some("```latex\n```\nX")) == "X"
  {
    var s := "```latex\n```\nX";
    assert HasLatexFence(s);
    assert s[8] == '\n' && s[9] == '`';
    SkipSpacesOverRun(s, 8, 9);
    var a := s[9..];
    assert StripLatexFence(s) == a == "```\nX";
    assert StartsWithFence(a);
    assert a[3] == '\n' && a[4] == 'X';
    SkipSpacesOverRun(a, 3, 4);
    assert StripOpeningFence(a) == a[4..] == "X";
  }

  /** Another language tag loses only its backticks. */
  lemma OtherTagKeepsName()
    ensures Sanitise(Some("```python\nX")) == "python\nX"
  {
    var s := "```python\nX";
    assert s[0] == s[1] == s[2] == '`' && s[3] == 'p';
    assert !HasLatexFence(s);
    SkipSpacesOverRun(s, 3, 3);
    assert StripOpeningFence(s) == s[3..] == "python\nX";
    assert !EndsWithFence("python\nX");
  }

  /** A text that is only a fence is emptied, and becomes the placeholder. */
  lemma BareFenceIsPlaceholder()
    ensures Sanitise(Some("```")) == Placeholder
  {
    var s := "```";
    assert StartsWithFence(s) && !HasLatexFence(s);
    assert s[3..] == "";
  }
}
