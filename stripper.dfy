/**
 The Markdown stripper: the plain-text fallback used when Telegram refuses
 to parse a reply's entities. It deletes the four markup sentinels
 `*`, `_`, `` ` `` and `~` and keeps everything else.
 */
module Stripper {

  /** The characters the stripper deletes (bold, italic, code, strikethrough). */
  predicate IsMarkup(c: char) {
    c == '*' || c == '_' || c == '`' || c == '~'
  }

  /** `s.replace(c, '')` for a one-character pattern: every occurrence of `c` goes. */
  function RemoveAll(s: string, c: char): string
  {
    if |s| == 0 then ""
    else (if s[0] == c then "" else [s[0]]) + RemoveAll(s[1..], c)
  }

  /** The stripper as the source writes it: four chained replacements. */
  function Clean(text: string): string
  {
    RemoveAll(RemoveAll(RemoveAll(RemoveAll(text, '*'), '_'), '`'), '~')
  }

  /** `RemoveAll` keeps exactly the characters other than `c`. */
  lemma {:induction false} RemoveAllMembers(s: string, c: char)
    ensures forall x :: x in RemoveAll(s, c) <==> x in s && x != c
  {
    if |s| > 0 {
      RemoveAllMembers(s[1..], c);
      assert s == [s[0]] + s[1..];
    }
  }

  /** The stripped text holds no markup character and every other character of the input. */
  lemma CleanMembers(text: string)
    ensures forall x :: x in Clean(text) <==> x in text && !IsMarkup(x)
  {
    RemoveAllMembers(text, '*');
    RemoveAllMembers(RemoveAll(text, '*'), '_');
    RemoveAllMembers(RemoveAll(RemoveAll(text, '*'), '_'), '`');
    RemoveAllMembers(RemoveAll(RemoveAll(RemoveAll(text, '*'), '_'), '`'), '~');
  }

  /** Reference definition: one left-to-right pass that keeps the non-markup characters. */
  function Strip(text: string): (r: string)
  {
    if |text| == 0 then ""
    else (if IsMarkup(text[0]) then "" else [text[0]]) + Strip(text[1..])
  }

  lemma {:induction false} RemoveAllAppend(a: string, b: string, c: char)
    ensures RemoveAll(a + b, c) == RemoveAll(a, c) + RemoveAll(b, c)
  {
    if |a| == 0 {
      assert a + b == b;
    } else {
      assert (a + b)[0] == a[0];
      assert (a + b)[1..] == a[1..] + b;
      RemoveAllAppend(a[1..], b, c);
    }
  }

  lemma CleanAppend(a: string, b: string)
    ensures Clean(a + b) == Clean(a) + Clean(b)
  {
    RemoveAllAppend(a, b, '*');
    RemoveAllAppend(RemoveAll(a, '*'), RemoveAll(b, '*'), '_');
    RemoveAllAppend(RemoveAll(RemoveAll(a, '*'), '_'), RemoveAll(RemoveAll(b, '*'), '_'), '`');
    RemoveAllAppend(RemoveAll(RemoveAll(RemoveAll(a, '*'), '_'), '`'),
                    RemoveAll(RemoveAll(RemoveAll(b, '*'), '_'), '`'), '~');
  }

  /** The chained replacements delete exactly the markup characters and keep the
      others in their original order. */
  lemma {:induction false} CleanIsStrip(text: string)
    ensures Clean(text) == Strip(text)
  {
    if |text| > 0 {
      assert text == [text[0]] + text[1..];
      CleanAppend([text[0]], text[1..]);
      CleanChar(text[0]);
      CleanIsStrip(text[1..]);
    }
  }

  lemma CleanChar(c: char)
    ensures Clean([c]) == if IsMarkup(c) then "" else [c]
  {
    forall x: char ensures RemoveAll([c], x) == if c == x then "" else [c] {
      assert [c][1..] == "";
    }
  }

  /** Text with no markup passes through unchanged. */
  lemma {:induction false} CleanFixesPlainText(text: string)
    requires forall i :: 0 <= i < |text| ==> !IsMarkup(text[i])
    ensures Clean(text) == text
  {
    CleanIsStrip(text);
    StripFixesPlainText(text);
  }

  lemma {:induction false} StripFixesPlainText(text: string)
    requires forall i :: 0 <= i < |text| ==> !IsMarkup(text[i])
    ensures Strip(text) == text
  {
    if |text| > 0 {
      assert !IsMarkup(text[0]);
      StripFixesPlainText(text[1..]);
    }
  }

  /** Stripping twice gives the same result as stripping once. */
  lemma CleanIdempotent(text: string)
    ensures Clean(Clean(text)) == Clean(text)
  {
    CleanMembers(text);
    var c := Clean(text);
    forall i | 0 <= i < |c| ensures !IsMarkup(c[i]) {
      assert c[i] in c;
    }
    CleanFixesPlainText(c);
  }

  /** Exact character count: the stripper removes one character per markup occurrence. */
  function MarkupCount(text: string): (n: nat)
    ensures n <= |text|
  {
    if |text| == 0 then 0
    else (if IsMarkup(text[0]) then 1 else 0) + MarkupCount(text[1..])
  }

  lemma {:induction false} CleanLength(text: string)
    ensures |Clean(text)| == |text| - MarkupCount(text)
  {
    CleanIsStrip(text);
    StripLength(text);
  }

  lemma {:induction false} StripLength(text: string)
    ensures |Strip(text)| == |text| - MarkupCount(text)
  {
    if |text| > 0 {
      StripLength(text[1..]);
    }
  }
}
