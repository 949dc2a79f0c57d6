/**
 * The query string authorize builds: for every parameter, the key as it
 * is, `=`, the urlencoded value and `&`, in the array's order. A form
 * decoder (splitting at `&`, then at the first `=`, and urldecoding both
 * halves, as section 17.13.4.1 of HTML 4.01 describes the receiving side)
 * is the partner that reads it back.
 */
module QueryStrings {
  import opened PhpStrings
  import opened PhpArrays
  import opened UrlEncoding

  /** One `key=urlencode(value)&` segment: the key verbatim, only the value encoded. */
  function Field(key: PhpString, value: PhpString): PhpString {
    key + "=" + UrlEncode(value) + "&"
  }

  /** The segments of all parameters, in order. */
  function QueryBody(p: Pairs): PhpString {
    if p == [] then [] else Field(p[0].0, p[0].1) + QueryBody(p[1..])
  }

  /** The query body is empty only for no parameters, and otherwise ends with `&`. */
  lemma {:induction false} QueryBodyEndsWithSeparator(p: Pairs)
    ensures p == [] <==> QueryBody(p) == []
    ensures p != [] ==> QueryBody(p)[|QueryBody(p)| - 1] == '&'
  {
    if p != [] {
      var f := Field(p[0].0, p[0].1);
      assert |f| > 0 && f[|f| - 1] == '&';
      QueryBodyEndsWithSeparator(p[1..]);
    }
  }

  /** The whole `$paramsString`: `?` followed by the segments. */
  function QueryString(p: Pairs): PhpString {
    "?" + QueryBody(p)
  }

  lemma {:induction false} QueryBodyAppend(p: Pairs, r: Pairs)
    ensures QueryBody(p + r) == QueryBody(p) + QueryBody(r)
  {
    if p == [] {
      assert p + r == r;
    } else {
      assert (p + r)[1..] == p[1..] + r;
      QueryBodyAppend(p[1..], r);
    }
  }

  lemma QueryBodySnoc(p: Pairs, key: PhpString, value: PhpString)
    ensures QueryBody(p + [(key, value)]) == QueryBody(p) + Field(key, value)
  {
    var one: Pairs := [(key, value)];
    QueryBodyAppend(p, one);
    assert one[1..] == [];
  }

  /** Appending one parameter appends its segment to the query string. */
  lemma QueryStringSnoc(p: Pairs, key: PhpString, value: PhpString)
    ensures QueryString(p + [(key, value)]) == QueryString(p) + Field(key, value)
  {
    QueryBodySnoc(p, key, value);
  }

  /**
   * The segment of the parameter at position i follows the segments of
   * the i parameters before it: there is no other separator.
   */
  lemma QueryBodyCons(b: Pairs)
    requires b != []
    ensures QueryBody(b) == Field(b[0].0, b[0].1) + QueryBody(b[1..])
  {
  }

  lemma QueryBodyAt(p: Pairs, i: nat)
    requires i < |p|
    ensures QueryBody(p) == QueryBody(p[..i]) + (Field(p[i].0, p[i].1) + QueryBody(p[i + 1..]))
  {
    var a, b := p[..i], p[i..];
    assert a + b == p;
    assert b[1..] == p[i + 1..];
    QueryBodyAppend(a, b);
    QueryBodyCons(b);
  }

  /** The bytes before the first c (all of s when there is none). */
  function Before(s: PhpString, c: Byte): (r: PhpString)
    ensures |r| <= |s|
  {
    if s == [] || s[0] == c then [] else [s[0]] + Before(s[1..], c)
  }

  /** The bytes after the first c (none when there is no c). */
  function After(s: PhpString, c: Byte): (r: PhpString)
    ensures s != [] ==> |r| < |s|
  {
    if s == [] then [] else if s[0] == c then s[1..] else After(s[1..], c)
  }

  lemma {:induction false} SplitAtFirst(x: PhpString, c: Byte, y: PhpString)
    requires c !in x
    ensures Before(x + [c] + y, c) == x && After(x + [c] + y, c) == y
  {
    if x == [] {
      assert x + [c] + y == [c] + y;
    } else {
      assert (x + [c] + y)[1..] == x[1..] + [c] + y;
      SplitAtFirst(x[1..], c, y);
    }
  }

  /**
   * Reads a form-encoded string back into parameters: split at `&`, skip
   * empty pieces, split each piece at its first `=`, urldecode both halves.
   */
  function FormDecode(s: PhpString): Pairs
    decreases |s|
  {
    if s == [] then []
    else
      var piece := Before(s, '&');
      (if piece == [] then [] else [(UrlDecode(Before(piece, '=')), UrlDecode(After(piece, '=')))])
      + FormDecode(After(s, '&'))
  }

  /** A key that survives the trip unencoded: no `&`, `=`, `%` or `+` in it. */
  predicate IsPlainKey(k: PhpString) {
    forall i :: 0 <= i < |k| ==> k[i] != '&' && k[i] != '=' && k[i] != '%' && k[i] != '+'
  }

  lemma {:induction false} PlainKeyDecodes(k: PhpString)
    requires IsPlainKey(k)
    ensures UrlDecode(k) == k
  {
    if k != [] {
      PlainKeyDecodes(k[1..]);
      assert k == [k[0]] + k[1..];
    }
  }

  lemma EncodedHasNoDelimiters(v: PhpString)
    ensures '&' !in UrlEncode(v) && '=' !in UrlEncode(v)
  {
    EncodeIsUrlEncoded(v);
    UrlEncodedAlphabet(UrlEncode(v));
  }

  /** A segment with a plain key is read back as its parameter, and decoding goes on after it. */
  lemma FieldDecodes(key: PhpString, value: PhpString, rest: PhpString)
    requires IsPlainKey(key)
    ensures FormDecode(Field(key, value) + rest) == [(key, value)] + FormDecode(rest)
  {
    var e := UrlEncode(value);
    var piece := key + "=" + e;
    EncodedHasNoDelimiters(value);
    assert '&' !in piece by {
      assert forall i :: 0 <= i < |piece| ==> piece[i] == (if i < |key| then key[i] else if i == |key| then '=' else e[i - |key| - 1]);
    }
    assert '=' !in key;
    assert Field(key, value) + rest == piece + ['&'] + rest;
    SplitAtFirst(piece, '&', rest);
    SplitAtFirst(key, '=', e);
    assert piece == key + ['='] + e;
    PlainKeyDecodes(key);
    DecodeEncode(value);
  }

  /** Decoding the query body gives the parameters back, as long as the keys are plain. */
  lemma {:induction false} QueryBodyRoundTrip(p: Pairs)
    requires forall i :: 0 <= i < |p| ==> IsPlainKey(p[i].0)
    ensures FormDecode(QueryBody(p)) == p
  {
    if p != [] {
      var t := p[1..];
      assert IsPlainKey(p[0].0);
      FieldDecodes(p[0].0, p[0].1, QueryBody(t));
      forall i | 0 <= i < |t| ensures IsPlainKey(t[i].0) {
        assert t[i] == p[i + 1];
      }
      QueryBodyRoundTrip(t);
      assert p == [p[0]] + t;
    }
  }

  const KeyWithAmpersand: PhpString := "a&b"
  const ValueOne: PhpString := "1"
  const SplitQuery: PhpString := "a&b=1&"

  lemma VerbatimKeyWritten()
    ensures QueryBody([(KeyWithAmpersand, ValueOne)]) == SplitQuery
  {
    assert UrlEncode(ValueOne) == ValueOne;
  }

  const SplitTail: PhpString := "b=1&"

  lemma SplitHeadRead()
    ensures FormDecode(SplitQuery) == [("a", "")] + FormDecode(SplitTail)
  {
    SplitAtFirst("a", '&', SplitTail);
    assert SplitQuery == "a" + ['&'] + SplitTail;
    assert Before("a", '=') == "a" && After("a", '=') == [];
    assert UrlDecode("a") == "a";
  }

  lemma SplitTailRead()
    ensures FormDecode(SplitTail) == [("b", ValueOne)]
  {
    var b: PhpString := "b";
    FieldDecodes(b, ValueOne, []);
    assert UrlEncode(ValueOne) == ValueOne;
    assert Field(b, ValueOne) + [] == SplitTail;
  }

  lemma VerbatimKeyRead()
    ensures FormDecode(SplitQuery) == [("a", ""), ("b", ValueOne)]
  {
    SplitHeadRead();
    SplitTailRead();
  }

  /**
   * Keys are written as they are: a key holding `&` is not read back, the
   * decoder sees two parameters.
   */
  lemma VerbatimKeyIsSplit()
    ensures QueryBody([(KeyWithAmpersand, ValueOne)]) == SplitQuery
    ensures FormDecode(QueryBody([(KeyWithAmpersand, ValueOne)])) == [("a", ""), ("b", ValueOne)]
  {
    VerbatimKeyWritten();
    VerbatimKeyRead();
  }
}
