/**
 * Capturing the client identifier from the URL the sign-in click redirects
 * to: the text after the `#!?` marker is read as a query string, the pairs
 * are put into a dictionary, and the `clientID` entry is looked up.
 */
module ClientId {
  import opened Wrappers
  import opened Exceptions
  import opened Text

  /** The marker that precedes the query in the redirect URL. */
  const Marker: string := "#!?"

  /** The query key that holds the client identifier. */
  const ClientIdKey: string := "clientID"

  /** `current_url.split('#!?')[1]`: the piece between the first and second marker. */
  function Fragment(url: string): (r: Result<string, Exception>)
    ensures r.Failure? <==> !Contains(url, Marker)
    ensures r.Failure? ==> r.error == IndexError
    ensures r.Success? ==> exists p :: TwoPieceShape(url, Marker, p, r.value) && !Contains(p, Marker)
    ensures r.Success? ==> !Contains(r.value, Marker)
  {
    var pieces := Split(url, Marker);
    SplitHasSecondPiece(url, Marker);
    if |pieces| < 2 then
      Failure(IndexError)
    else
      FirstTwoPieces(url, Marker);
      SplitPiecesFree(url, Marker);
      Success(pieces[1])
  }

  /** `name_value.split('=', 1)`: the text before and after the first `=`. */
  function SplitPair(piece: string): Option<(string, string)>
  {
    match IndexOf(piece, "=")
    case None => None
    case Some(i) => Some((piece[..i], piece[i + 1..]))
  }

  /**
   * The pairs `parse_qsl` keeps from a list of `&`-separated pieces: empty
   * pieces, pieces without `=`, and pairs with an empty value are dropped
   * (`keep_blank_values` is off).
   */
  function PairsOf(pieces: seq<string>): (r: seq<(string, string)>)
    ensures |r| <= |pieces|
    ensures forall k :: 0 <= k < |r| ==> |r[k].1| > 0
  {
    if |pieces| == 0 then []
    else
      var head :=
        if |pieces[0]| == 0 then []
        else match SplitPair(pieces[0])
          case None => []
          case Some(nv) => if |nv.1| == 0 then [] else [nv];
      head + PairsOf(pieces[1..])
  }

  /** `parse_qsl(query)`, without percent-decoding. */
  function ParseQsl(query: string): seq<(string, string)>
  {
    PairsOf(Split(query, "&"))
  }

  /** Some pair has key `k`. */
  predicate HasKey(pairs: seq<(string, string)>, k: string) {
    exists i :: 0 <= i < |pairs| && pairs[i].0 == k
  }

  /** Pair `i` is the last one with its key. */
  predicate LastOfKey(pairs: seq<(string, string)>, i: int) {
    0 <= i < |pairs| && forall j :: i < j < |pairs| ==> pairs[j].0 != pairs[i].0
  }

  /** `dict(pairs)`: the pairs inserted one after the other, left to right. */
  function ToDict(pairs: seq<(string, string)>): map<string, string>
  {
    if |pairs| == 0 then map[]
    else
      var n := |pairs| - 1;
      ToDict(pairs[..n])[pairs[n].0 := pairs[n].1]
  }

  /** The dictionary's keys are exactly the keys of the pairs. */
  lemma {:induction false} DictKeys(pairs: seq<(string, string)>, k: string)
    ensures k in ToDict(pairs) <==> HasKey(pairs, k)
  {
    if |pairs| > 0 {
      var n := |pairs| - 1;
      var init := pairs[..n];
      DictKeys(init, k);
      if HasKey(pairs, k) && k != pairs[n].0 {
        var i :| 0 <= i < |pairs| && pairs[i].0 == k;
        assert init[i].0 == k;
      }
      if HasKey(init, k) {
        var i :| 0 <= i < |init| && init[i].0 == k;
        assert pairs[i].0 == k;
      }
      if k == pairs[n].0 {
        assert pairs[n].0 == k;
      }
    }
  }

  /** When a key occurs more than once, the last occurrence wins. */
  lemma {:induction false} DictLastWins(pairs: seq<(string, string)>, i: int)
    requires LastOfKey(pairs, i)
    ensures pairs[i].0 in ToDict(pairs) && ToDict(pairs)[pairs[i].0] == pairs[i].1
  {
    var n := |pairs| - 1;
    if i < n {
      var init := pairs[..n];
      assert init[i] == pairs[i];
      assert LastOfKey(init, i);
      DictLastWins(init, i);
    }
  }

  /** `params[key]`. */
  function Lookup(params: map<string, string>, key: string): (r: Result<string, Exception>)
    ensures r.Success? <==> key in params
    ensures r.Success? ==> r.value == params[key]
    ensures r.Failure? ==> r.error == KeyError(key)
  {
    if key in params then Success(params[key]) else Failure(KeyError(key))
  }

  /** Lines 98-100: the client identifier in the redirect URL, or the exception that ends the run. */
  function ExtractClientId(url: string): (r: Result<string, Exception>)
    // the marker is missing exactly when the split raises `IndexError`
    ensures r.Failure? && r.error == IndexError <==> !Contains(url, Marker)
    // a query without `clientID` raises `KeyError`, and only such a query; nothing else can fail
    ensures r == Failure(KeyError(ClientIdKey)) <==>
      Contains(url, Marker) && !HasKey(ParseQsl(Fragment(url).value), ClientIdKey)
    ensures r.Failure? ==> r.error == IndexError || r.error == KeyError(ClientIdKey)
    // otherwise the identifier is the last `clientID` value of the marker-free query after the first marker
    ensures r.Success? ==> Fragment(url).Success? && exists i ::
      LastOfKey(ParseQsl(Fragment(url).value), i) && ParseQsl(Fragment(url).value)[i] == (ClientIdKey, r.value)
  {
    var query :- Fragment(url);
    LookupLast(ParseQsl(query), ClientIdKey);
    DictKeys(ParseQsl(query), ClientIdKey);
    Lookup(ToDict(ParseQsl(query)), ClientIdKey)
  }

  /** A key of the dictionary maps to the value of the last pair with that key. */
  lemma {:induction false} LookupLast(pairs: seq<(string, string)>, k: string)
    ensures k in ToDict(pairs) ==> exists i :: LastOfKey(pairs, i) && pairs[i] == (k, ToDict(pairs)[k])
  {
    if |pairs| > 0 && k in ToDict(pairs) {
      var n := |pairs| - 1;
      var init := pairs[..n];
      assert ToDict(pairs) == ToDict(init)[pairs[n].0 := pairs[n].1];
      if pairs[n].0 == k {
        assert LastOfKey(pairs, n);
      } else {
        assert k in ToDict(init) && ToDict(pairs)[k] == ToDict(init)[k];
        LookupLast(init, k);
        var i :| LastOfKey(init, i) && init[i] == (k, ToDict(init)[k]);
        assert pairs[i] == init[i];
        assert LastOfKey(pairs, i);
      }
    }
  }

  /** The dictionary of a concatenation is the first dictionary overridden by the second. */
  lemma {:induction false} DictConcat(a: seq<(string, string)>, b: seq<(string, string)>)
    ensures ToDict(a + b) == ToDict(a) + ToDict(b)
    decreases |b|
  {
    if |b| == 0 {
      assert a + b == a;
    } else {
      var b' := b[..|b| - 1];
      var last := b[|b| - 1];
      assert (a + b)[..|a + b| - 1] == a + b';
      assert (a + b)[|a + b| - 1] == last;
      assert ToDict(a + b) == ToDict(a + b')[last.0 := last.1];
      assert ToDict(b) == ToDict(b')[last.0 := last.1];
      DictConcat(a, b');
      assert (ToDict(a) + ToDict(b'))[last.0 := last.1] == ToDict(a) + ToDict(b')[last.0 := last.1];
    }
  }

  /** The order of pairs with distinct keys does not matter. */
  lemma DictOrderIrrelevant(a: seq<(string, string)>, b: seq<(string, string)>)
    requires forall i, j :: 0 <= i < |a| && 0 <= j < |b| ==> a[i].0 != b[j].0
    ensures ToDict(a + b) == ToDict(b + a)
  {
    DictConcat(a, b);
    DictConcat(b, a);
    var ma, mb := ToDict(a), ToDict(b);
    forall k | k in ma && k in mb
      ensures false
    {
      DictKeys(a, k);
      DictKeys(b, k);
    }
    assert ma + mb == mb + ma;
  }

  /** A well-formed query pair: it survives the `&`/`=` split and the blank-value filter. */
  predicate WellFormedPair(nv: (string, string)) {
    && (forall k :: 0 <= k < |nv.0| ==> nv.0[k] != '&' && nv.0[k] != '=')
    && (forall k :: 0 <= k < |nv.1| ==> nv.1[k] != '&')
    && |nv.1| > 0
  }

  /** `name=value` */
  function EncodePair(nv: (string, string)): string {
    nv.0 + "=" + nv.1
  }

  /** The `name=value` pieces of the pairs, in order. */
  function EncodePieces(pairs: seq<(string, string)>): (r: seq<string>)
    ensures |r| == |pairs|
    ensures forall k :: 0 <= k < |r| ==> r[k] == EncodePair(pairs[k])
  {
    if |pairs| == 0 then [] else [EncodePair(pairs[0])] + EncodePieces(pairs[1..])
  }

  /** `urlencode(pairs)` for pairs that need no escaping. */
  function EncodeQuery(pairs: seq<(string, string)>): string {
    Join(EncodePieces(pairs), "&")
  }

  lemma SplitPairOfEncoded(nv: (string, string))
    requires WellFormedPair(nv)
    ensures SplitPair(EncodePair(nv)) == Some(nv)
  {
    var s := EncodePair(nv);
    assert OccursAt(s, "=", |nv.0|) by {
      assert s[|nv.0|..|nv.0| + 1] == "=";
    }
    forall j | 0 <= j < |nv.0|
      ensures !OccursAt(s, "=", j)
    {
      OccursAtChar(s, '=', j);
    }
    IndexOfLeftmost(s, "=");
    var i := IndexOf(s, "=").value;
    assert i == |nv.0|;
    assert s[..i] == nv.0;
    assert s[i + 1..] == nv.1;
  }

  lemma {:induction false} PairsOfEncoded(pairs: seq<(string, string)>)
    requires forall k :: 0 <= k < |pairs| ==> WellFormedPair(pairs[k])
    ensures PairsOf(EncodePieces(pairs)) == pairs
    decreases |pairs|
  {
    var pieces := EncodePieces(pairs);
    if |pairs| > 0 {
      SplitPairOfEncoded(pairs[0]);
      assert pieces[1..] == EncodePieces(pairs[1..]);
      PairsOfEncoded(pairs[1..]);
      assert |pieces[0]| > 0;
      assert pairs == [pairs[0]] + pairs[1..];
    }
  }

  /** Parsing an encoded query gives back its pairs, in order. */
  lemma ParseEncoded(pairs: seq<(string, string)>)
    requires forall k :: 0 <= k < |pairs| ==> WellFormedPair(pairs[k])
    ensures ParseQsl(EncodeQuery(pairs)) == pairs
  {
    var pieces := EncodePieces(pairs);
    if |pairs| == 0 {
      NoFirstCharNoOccurrence("", "&");
      assert Split("", "&") == [""];
    } else {
      forall k, m | 0 <= k < |pieces| && 0 <= m < |pieces[k]|
        ensures pieces[k][m] != '&'
      {
        var nv := pairs[k];
        assert pieces[k] == nv.0 + "=" + nv.1;
        if m > |nv.0| {
          assert pieces[k][m] == nv.1[m - |nv.0| - 1];
        }
      }
      SplitJoin(pieces, '&');
    }
    PairsOfEncoded(pairs);
  }

  /** For a URL `prefix#!?query` with one marker, the identifier is looked up in the whole query. */
  lemma ExtractFromQuery(prefix: string, query: string)
    requires forall k :: 0 <= k < |prefix| ==> prefix[k] != '#'
    requires !Contains(query, Marker)
    ensures ExtractClientId(prefix + Marker + query) == Lookup(ToDict(ParseQsl(query)), ClientIdKey)
  {
    SplitAfterClean(prefix, Marker, query);
    SplitWithout(query, Marker);
    assert Fragment(prefix + Marker + query) == Success(query);
  }

  /**
   * The identifier captured from a redirect URL `prefix#!?query`: the value
   * of the last `clientID` pair of the query, and a `KeyError` when the
   * query has none, whatever other keys it holds.
   */
  lemma ExtractFromRedirect(prefix: string, pairs: seq<(string, string)>)
    requires forall k :: 0 <= k < |prefix| ==> prefix[k] != '#'
    requires forall k :: 0 <= k < |pairs| ==> WellFormedPair(pairs[k])
    requires !Contains(EncodeQuery(pairs), Marker)
    ensures var r := ExtractClientId(prefix + Marker + EncodeQuery(pairs));
      && (forall i :: LastOfKey(pairs, i) && pairs[i].0 == ClientIdKey ==> r == Success(pairs[i].1))
      && (!HasKey(pairs, ClientIdKey) ==> r == Failure(KeyError(ClientIdKey)))
  {
    ExtractFromQuery(prefix, EncodeQuery(pairs));
    ParseEncoded(pairs);
    DictKeys(pairs, ClientIdKey);
    forall i | LastOfKey(pairs, i) && pairs[i].0 == ClientIdKey {
      DictLastWins(pairs, i);
    }
  }

  /** Reordering pairs with distinct keys does not change the captured identifier. */
  lemma KeyOrderIrrelevant(prefix: string, a: seq<(string, string)>, b: seq<(string, string)>)
    requires forall k :: 0 <= k < |prefix| ==> prefix[k] != '#'
    requires forall k :: 0 <= k < |a| ==> WellFormedPair(a[k])
    requires forall k :: 0 <= k < |b| ==> WellFormedPair(b[k])
    requires forall i, j :: 0 <= i < |a| && 0 <= j < |b| ==> a[i].0 != b[j].0
    requires !Contains(EncodeQuery(a + b), Marker) && !Contains(EncodeQuery(b + a), Marker)
    ensures ExtractClientId(prefix + Marker + EncodeQuery(a + b))
         == ExtractClientId(prefix + Marker + EncodeQuery(b + a))
  {
    ExtractFromQuery(prefix, EncodeQuery(a + b));
    ExtractFromQuery(prefix, EncodeQuery(b + a));
    assert forall k :: 0 <= k < |a + b| ==> WellFormedPair((a + b)[k]);
    assert forall k :: 0 <= k < |b + a| ==> WellFormedPair((b + a)[k]);
    ParseEncoded(a + b);
    ParseEncoded(b + a);
    DictOrderIrrelevant(a, b);
  }
}
