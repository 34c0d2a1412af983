/**
 * The `element_has_css_class` expected condition: an element "has" a CSS
 * class when the class name is one of the pieces of its `class` attribute
 * split on a single space.
 */
module CssClass {
  import opened Text

  /** The marker class the sign-in button carries while it is disabled. */
  const Disabled: string := "isDisabled"

  /** The pieces of a `class` attribute, as `attr.split(' ')` yields them. */
  function Tokens(attr: string): seq<string>
  {
    Split(attr, " ")
  }

  /**
   * The condition's verdict: true where the condition returns the element,
   * false where it returns `False`. It holds iff `css` is a whole
   * space-delimited token of the attribute; being a substring of a longer
   * token is not enough.
   */
  predicate HasClass(attr: string, css: string)
    ensures HasClass(attr, css) <==> exists i, j :: ClassSpan(attr, css, i, j)
  {
    TokensAreSpans(attr, css);
    css in Tokens(attr)
  }

  /**
   * Reference definition: `css` is the text between positions `i` and `j` of
   * `attr`, contains no space, and is bounded on each side by a space or by
   * an end of the attribute.
   */
  predicate ClassSpan(attr: string, css: string, i: int, j: int)
  {
    && 0 <= i <= j <= |attr|
    && attr[i..j] == css
    && (forall k :: 0 <= k < |css| ==> css[k] != ' ')
    && (i == 0 || attr[i - 1] == ' ')
    && (j == |attr| || attr[j] == ' ')
  }

  /** Where the leftmost space of `attr` is, in terms of its characters. */
  lemma FirstSpace(attr: string)
    ensures IndexOf(attr, " ").None? ==> forall k :: 0 <= k < |attr| ==> attr[k] != ' '
    ensures IndexOf(attr, " ").Some? ==>
      var k := IndexOf(attr, " ").value;
      k < |attr| && attr[k] == ' ' && forall m :: 0 <= m < k ==> attr[m] != ' '
  {
    IndexOfLeftmost(attr, " ");
    forall m | 0 <= m < |attr| {
      OccursAtChar(attr, ' ', m);
    }
  }

  /** A span of `attr[k + 1..]` is a span of `attr` shifted by `k + 1`, when `attr[k]` is a space. */
  lemma SpanShift(attr: string, css: string, k: nat, i: int, j: int)
    requires k < |attr| && attr[k] == ' ' && 0 <= i
    ensures ClassSpan(attr[k + 1..], css, i, j) <==> ClassSpan(attr, css, i + k + 1, j + k + 1)
  {
    var rest := attr[k + 1..];
    if 0 <= i <= j <= |rest| {
      assert rest[i..j] == attr[i + k + 1..j + k + 1];
      if i > 0 {
        assert rest[i - 1] == attr[i + k];
      }
      if j < |rest| {
        assert rest[j] == attr[j + k + 1];
      }
    }
  }

  /** A span that starts no later than the first space is the first token. */
  lemma SpanBeforeSpace(attr: string, css: string, k: nat, i: int, j: int)
    requires k < |attr| && attr[k] == ' '
    requires forall m :: 0 <= m < k ==> attr[m] != ' '
    requires ClassSpan(attr, css, i, j) && i <= k
    ensures i == 0 && j == k && css == attr[..k]
  {
  }

  /** Without a space the attribute is one token, and its only span is the whole of it. */
  lemma SpansWithoutSpace(attr: string, css: string)
    requires forall k :: 0 <= k < |attr| ==> attr[k] != ' '
    ensures css in [attr] <==> exists i, j :: ClassSpan(attr, css, i, j)
  {
    if css == attr {
      assert ClassSpan(attr, css, 0, |attr|);
    }
    if exists i, j :: ClassSpan(attr, css, i, j) {
      var i, j :| ClassSpan(attr, css, i, j);
      assert i == 0 && j == |attr|;
      assert css == attr;
    }
  }

  /** A token of `attr` that is the first piece or a token after the first space is a span. */
  lemma TokenAfterSpaceIsSpan(attr: string, css: string, k: nat, rest: string)
    requires k < |attr| && attr[k] == ' ' && rest == attr[k + 1..]
    requires forall m :: 0 <= m < k ==> attr[m] != ' '
    requires css in Tokens(rest) ==> exists i, j :: ClassSpan(rest, css, i, j)
    requires css in [attr[..k]] + Tokens(rest)
    ensures exists i, j :: ClassSpan(attr, css, i, j)
  {
    var ts := [attr[..k]] + Tokens(rest);
    var m :| 0 <= m < |ts| && ts[m] == css;
    if m == 0 {
      assert ClassSpan(attr, css, 0, k);
    } else {
      assert Tokens(rest)[m - 1] == css;
      var i, j :| ClassSpan(rest, css, i, j);
      SpanShift(attr, css, k, i, j);
    }
  }

  /** A span of `attr` is the first piece or a span after the first space. */
  lemma SpanAfterSpaceIsToken(attr: string, css: string, k: nat, rest: string, i: int, j: int)
    requires k < |attr| && attr[k] == ' ' && rest == attr[k + 1..]
    requires forall m :: 0 <= m < k ==> attr[m] != ' '
    requires (exists i, j :: ClassSpan(rest, css, i, j)) ==> css in Tokens(rest)
    requires ClassSpan(attr, css, i, j)
    ensures css in [attr[..k]] + Tokens(rest)
  {
    var ts := [attr[..k]] + Tokens(rest);
    if i <= k {
      SpanBeforeSpace(attr, css, k, i, j);
      assert ts[0] == css;
    } else {
      SpanShift(attr, css, k, i - k - 1, j - k - 1);
      assert ClassSpan(rest, css, i - k - 1, j - k - 1);
      var m :| 0 <= m < |Tokens(rest)| && Tokens(rest)[m] == css;
      assert ts[m + 1] == css;
    }
  }

  /** Spans of `attr` are the first token or spans of what follows the first space. */
  lemma SpansAfterSpace(attr: string, css: string, k: nat, rest: string)
    requires k < |attr| && attr[k] == ' ' && rest == attr[k + 1..]
    requires forall m :: 0 <= m < k ==> attr[m] != ' '
    requires css in Tokens(rest) <==> exists i, j :: ClassSpan(rest, css, i, j)
    ensures css in [attr[..k]] + Tokens(rest) <==> exists i, j :: ClassSpan(attr, css, i, j)
  {
    if css in [attr[..k]] + Tokens(rest) {
      TokenAfterSpaceIsSpan(attr, css, k, rest);
    }
    if exists i, j :: ClassSpan(attr, css, i, j) {
      var i, j :| ClassSpan(attr, css, i, j);
      SpanAfterSpaceIsToken(attr, css, k, rest, i, j);
    }
  }

  /** The tokens of `attr` are exactly its space-bounded, space-free spans. */
  lemma {:induction false} TokensAreSpans(attr: string, css: string)
    ensures css in Tokens(attr) <==> exists i, j :: ClassSpan(attr, css, i, j)
    decreases |attr|
  {
    FirstSpace(attr);
    match IndexOf(attr, " ")
    case None =>
      assert Tokens(attr) == [attr];
      SpansWithoutSpace(attr, css);
    case Some(k) =>
      SplitStep(attr, " ", k);
      TokensAreSpans(attr[k + 1..], css);
      SpansAfterSpace(attr, css, k, attr[k + 1..]);
  }

  /** An attribute without spaces holds a single class: only that exact class matches. */
  lemma SingleClassAttribute(attr: string, css: string)
    requires forall k :: 0 <= k < |attr| ==> attr[k] != ' '
    ensures HasClass(attr, css) <==> css == attr
  {
    NoFirstCharNoOccurrence(attr, " ");
  }

  /**
   * A class that only starts a longer token does not match it (`isDisabled`
   * against `btn isDisabledX`), while the bare token does.
   */
  lemma LongerClassDoesNotMatch(first: string, css: string, more: string)
    requires forall k :: 0 <= k < |first| ==> first[k] != ' '
    requires forall k :: 0 <= k < |css + more| ==> (css + more)[k] != ' '
    requires |more| > 0 && first != css
    ensures !HasClass(first + " " + (css + more), css)
    ensures HasClass(first + " " + css, css)
  {
    SplitAfterClean(first, " ", css + more);
    SingleClassAttribute(css + more, css);
    assert Tokens(first + " " + (css + more)) == [first] + Tokens(css + more);
    assert forall k :: 0 <= k < |css| ==> css[k] == (css + more)[k];
    SplitAfterClean(first, " ", css);
    SingleClassAttribute(css, css);
    assert Tokens(first + " " + css) == [first] + Tokens(css);
  }

  /**
   * The empty class name matches exactly when the attribute has an empty
   * token: it is empty, starts or ends with a space, or holds two spaces in a
   * row.
   */
  lemma EmptyClass(attr: string)
    ensures HasClass(attr, "") <==>
      |attr| == 0 || attr[0] == ' ' || attr[|attr| - 1] == ' '
      || exists k :: 0 < k < |attr| && attr[k - 1] == ' ' && attr[k] == ' '
  {
    if |attr| > 0 && attr[0] == ' ' {
      assert ClassSpan(attr, "", 0, 0);
    }
    if |attr| > 0 && attr[|attr| - 1] == ' ' {
      assert ClassSpan(attr, "", |attr|, |attr|);
    }
    if exists k :: 0 < k < |attr| && attr[k - 1] == ' ' && attr[k] == ' ' {
      var k :| 0 < k < |attr| && attr[k - 1] == ' ' && attr[k] == ' ';
      assert ClassSpan(attr, "", k, k);
    }
    if |attr| == 0 {
      assert ClassSpan(attr, "", 0, 0);
    }
  }
}
