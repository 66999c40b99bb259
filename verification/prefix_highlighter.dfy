/**
 * `PrefixHighlighter`: finds the first word of a text that starts with a
 * typed prefix and highlights it. Only the text is upper-cased before the
 * comparison; the prefix is compared as given. Colours, spans and views are
 * reduced to the highlighted index range and the text a view shows.
 */
module PrefixHighlighter {
  import opened Wrappers
  import opened JavaLang

  /** Position `i` starts a word: a letter or digit at the start or after a non-word character. */
  predicate IsWordStart(text: string, i: int) {
    0 <= i < |text| && IsLetterOrDigit(text[i]) && (i == 0 || !IsLetterOrDigit(text[i - 1]))
  }

  /** The upper-cased text at `i` spells `prefix`. */
  predicate MatchesAt(text: string, i: int, prefix: string) {
    0 <= i && i + |prefix| <= |text| && forall j :: 0 <= j < |prefix| ==> ToUpperCase(text[i + j]) == prefix[j]
  }

  /** A word of `text` starts at `i` and begins with `prefix`. */
  predicate IsWordPrefixAt(text: string, prefix: string, i: int) {
    IsWordStart(text, i) && MatchesAt(text, i, prefix)
  }

  /**
   * Only the text is upper-cased, so a prefix that starts with a lower-case
   * letter matches no word at all: callers must pass it upper-cased.
   */
  lemma LowerCasePrefixNeverMatches(text: string, prefix: string)
    requires |prefix| > 0 && 'a' <= prefix[0] <= 'z'
    ensures forall i :: !IsWordPrefixAt(text, prefix, i)
  {
    forall i | IsWordStart(text, i) && i + |prefix| <= |text|
      ensures !MatchesAt(text, i, prefix)
    {
      var u := ToUpperCase(text[i]);
      assert !('a' <= u <= 'z');
    }
  }

  /** `skipNonWordChars`: moves past characters that are neither letters nor digits. */
  method SkipNonWordChars(text: string, i: nat, tlen: nat) returns (k: nat)
    requires tlen == |text| && i <= tlen
    ensures i <= k <= tlen
    ensures forall m :: i <= m < k ==> !IsLetterOrDigit(text[m])
    ensures k < tlen ==> IsLetterOrDigit(text[k])
  {
    k := i;
    while k < tlen && !IsLetterOrDigit(text[k])
      invariant i <= k <= tlen
      invariant forall m :: i <= m < k ==> !IsLetterOrDigit(text[m])
    {
      k := k + 1;
    }
  }

  /** `skipWord`: moves past letters and digits. */
  method SkipWord(text: string, i: nat, tlen: nat) returns (k: nat)
    requires tlen == |text| && i <= tlen
    ensures i <= k <= tlen
    ensures forall m :: i <= m < k ==> IsLetterOrDigit(text[m])
    ensures k < tlen ==> !IsLetterOrDigit(text[k])
  {
    k := i;
    while k < tlen && IsLetterOrDigit(text[k])
      invariant i <= k <= tlen
      invariant forall m :: i <= m < k ==> IsLetterOrDigit(text[m])
    {
      k := k + 1;
    }
  }

  /** `matchesPrefix`: compares the upper-cased text at `start` with the prefix. */
  method MatchesPrefix(text: string, start: nat, prefix: string) returns (b: bool)
    requires start + |prefix| <= |text|
    ensures b <==> MatchesAt(text, start, prefix)
  {
    var j := 0;
    while j < |prefix|
      invariant 0 <= j <= |prefix|
      invariant forall m :: 0 <= m < j ==> ToUpperCase(text[start + m]) == prefix[m]
    {
      if ToUpperCase(text[start + j]) != prefix[j] {
        return false;
      }
      j := j + 1;
    }
    return true;
  }

  /**
   * `indexOfWordPrefix`: the leftmost word start whose upper-cased text
   * spells the prefix, or -1. An empty text, a null or empty prefix, or a
   * text shorter than the prefix gives -1 at once.
   */
  method IndexOfWordPrefix(text: string, prefix: Option<string>) returns (r: int)
    ensures |text| == 0 || prefix.None? || |prefix.value| == 0 || |text| < |prefix.value| ==> r == -1
    ensures r != -1 ==> prefix.Some? && 0 <= r && r + |prefix.value| <= |text|
    ensures r != -1 ==> IsWordPrefixAt(text, prefix.value, r)
    ensures r != -1 ==> forall j :: 0 <= j < r ==> !IsWordPrefixAt(text, prefix.value, j)
    ensures r == -1 && prefix.Some? && |prefix.value| > 0 ==> forall j :: !IsWordPrefixAt(text, prefix.value, j)
  {
    if |text| == 0 || prefix.None? {
      return -1;
    }
    var p := prefix.value;
    var tlen := |text|;
    var plen := |p|;
    if plen == 0 || tlen < plen {
      return -1;
    }
    var i: nat := 0;
    while i < tlen
      invariant i <= tlen
      invariant i == 0 || i == tlen || !IsLetterOrDigit(text[i])
      invariant forall j :: 0 <= j < i ==> !IsWordPrefixAt(text, p, j)
      decreases tlen - i
    {
      var w := SkipNonWordChars(text, i, tlen);
      assert forall j :: i <= j < w ==> !IsWordStart(text, j);
      if w + plen > tlen {
        assert forall j :: w <= j ==> !MatchesAt(text, j, p);
        return -1;
      }
      assert IsWordStart(text, w);
      var m := MatchesPrefix(text, w, p);
      if m {
        return w;
      }
      var next := SkipWord(text, w, tlen);
      assert forall j :: w < j < next ==> !IsWordStart(text, j) by {
        forall j | w < j < next ensures !IsWordStart(text, j) {
          assert IsLetterOrDigit(text[j - 1]);
        }
      }
      i := next;
    }
    return -1;
  }

  /** What a text view shows: plain text, or text with one highlighted span `[spanStart, spanEnd)`. */
  datatype Styled =
    | Plain(text: string)
    | Highlighted(text: string, spanStart: nat, spanEnd: nat)

  /**
   * `apply`: highlights exactly the prefix-long span at the word found by
   * `indexOfWordPrefix`, or leaves the text plain when there is none.
   */
  method Apply(text: string, prefix: string) returns (r: Styled)
    ensures r.text == text
    ensures r.Highlighted? ==> r.spanEnd == r.spanStart + |prefix| <= |text|
    ensures r.Highlighted? ==> IsWordPrefixAt(text, prefix, r.spanStart)
    ensures r.Highlighted? ==> forall j :: 0 <= j < r.spanStart ==> !IsWordPrefixAt(text, prefix, j)
    ensures r.Plain? ==> |prefix| == 0 || |text| < |prefix| || forall j :: !IsWordPrefixAt(text, prefix, j)
  {
    var index := IndexOfWordPrefix(text, Some(prefix));
    if index != -1 {
      r := Highlighted(text, index, index + |prefix|);
    } else {
      r := Plain(text);
    }
  }

  datatype TextView = TextView(shown: Styled)

  /**
   * `setText(view, text, prefix)`: the view afterwards (`None` for a null
   * view). A null or empty prefix shows the text plain; otherwise a
   * non-empty text is shown through `apply` and an empty one leaves the view
   * as it was.
   */
  method SetText(view: Option<TextView>, text: string, prefix: Option<string>) returns (after: Option<TextView>)
    ensures view.None? ==> after.None?
    ensures view.Some? && (prefix.None? || |prefix.value| == 0) ==> after == Some(TextView(Plain(text)))
    ensures view.Some? && prefix.Some? && |prefix.value| > 0 && |text| == 0 ==> after == view
    ensures view.Some? && prefix.Some? && |prefix.value| > 0 && |text| > 0 ==>
              && after.Some? && after.value.shown.text == text
              && (after.value.shown.Highlighted? ==>
                    && after.value.shown.spanEnd == after.value.shown.spanStart + |prefix.value|
                    && IsWordPrefixAt(text, prefix.value, after.value.shown.spanStart)
                    && forall j :: 0 <= j < after.value.shown.spanStart ==> !IsWordPrefixAt(text, prefix.value, j))
              && (after.value.shown.Plain? ==> |text| < |prefix.value| || forall j :: !IsWordPrefixAt(text, prefix.value, j))
  {
    if view.None? {
      return None;
    }
    if prefix.None? || |prefix.value| == 0 {
      return Some(TextView(Plain(text)));
    } else if |text| > 0 {
      var styled := Apply(text, prefix.value);
      return Some(TextView(styled));
    }
    return view;
  }

  datatype NullPointerException = NullPointerException

  /**
   * `setText(view, prefix)`: re-applies the prefix to the text the view
   * already shows. It reads the view's text before any null check, so a
   * null view raises `NullPointerException` instead of being ignored.
   */
  method ReapplyPrefix(view: Option<TextView>, prefix: Option<string>) returns (r: Result<Option<TextView>, NullPointerException>)
    ensures view.None? <==> r.Failure?
    ensures r.Success? ==> r.value.Some? && r.value.value.shown.text == view.value.shown.text
    ensures view.Some? && (prefix.None? || |prefix.value| == 0) ==>
              r == Success(Some(TextView(Plain(view.value.shown.text))))
    ensures view.Some? && prefix.Some? && |prefix.value| > 0 && |view.value.shown.text| == 0 ==>
              r == Success(view)
    ensures view.Some? && prefix.Some? && |prefix.value| > 0 && |view.value.shown.text| > 0 ==>
              var text := view.value.shown.text;
              var shown := r.value.value.shown;
              && (shown.Highlighted? ==>
                    && shown.spanEnd == shown.spanStart + |prefix.value|
                    && IsWordPrefixAt(text, prefix.value, shown.spanStart)
                    && forall j :: 0 <= j < shown.spanStart ==> !IsWordPrefixAt(text, prefix.value, j))
              && (shown.Plain? ==> |text| < |prefix.value| || forall j :: !IsWordPrefixAt(text, prefix.value, j))
  {
    if view.None? {
      return Failure(NullPointerException);
    }
    var after := SetText(view, view.value.shown.text, prefix);
    return Success(after);
  }
}
