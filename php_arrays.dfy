/**
 * PHP arrays with string keys: an ordered list of key/value entries in
 * which every key occurs once. `array_merge` on two such arrays is
 * modelled as the source relies on it (integer keys, which array_merge
 * renumbers, do not occur here).
 */
module PhpArrays {
  import opened PhpStrings

  type Entry = (PhpString, PhpString)

  type Pairs = seq<Entry>

  function Keys(a: Pairs): (ks: seq<PhpString>)
    ensures |ks| == |a|
  {
    seq(|a|, i requires 0 <= i < |a| => a[i].0)
  }

  predicate IsDigit(c: Byte) {
    '0' <= c <= '9'
  }

  /** The number a string of decimal digits denotes (a byte that is not a digit counts as 0). */
  function DecimalValue(s: PhpString): nat {
    if s == [] then 0
    else
      var last := s[|s| - 1];
      DecimalValue(s[..|s| - 1]) * 10 + (if IsDigit(last) then last as int - '0' as int else 0)
  }

  /** The largest integer PHP holds on a 64-bit platform. */
  const PhpIntMax: nat := 0x7FFF_FFFF_FFFF_FFFF

  /** Decimal digits without a leading zero. */
  predicate IsCanonicalMagnitude(m: PhpString) {
    |m| > 0 && '1' <= m[0] <= '9' && forall i :: 0 <= i < |m| ==> IsDigit(m[i])
  }

  /**
   * A key PHP stores as an integer, not as a string: `0`, or an optional
   * `-` followed by digits without a leading zero, within the 64-bit range.
   */
  predicate IsIntegerKey(k: PhpString) {
    || k == ['0']
    || (IsCanonicalMagnitude(k) && DecimalValue(k) <= PhpIntMax)
    || (|k| > 0 && k[0] == '-' && IsCanonicalMagnitude(k[1..]) && DecimalValue(k[1..]) <= PhpIntMax + 1)
  }

  /** Which short keys PHP turns into integers. */
  lemma IntegerKeyExamples()
    ensures IsIntegerKey("0") && IsIntegerKey("5") && IsIntegerKey("-3") && IsIntegerKey("42")
    ensures !IsIntegerKey("05") && !IsIntegerKey("-0") && !IsIntegerKey("5a") && !IsIntegerKey("")
  {
    var fiveA: PhpString := "5a";
    assert !IsDigit(fiveA[1]);
    var minusThree: PhpString := "-3";
    assert minusThree[1..] == "3";
    var fortyTwo: PhpString := "42";
    assert fortyTwo[..1] == "4";
  }

  /**
   * A PHP array with string keys only: no key is one PHP would store as
   * an integer, and no key occurs twice.
   */
  predicate IsArray(a: Pairs) {
    && (forall i :: 0 <= i < |a| ==> !IsIntegerKey(a[i].0))
    && (forall i, j :: 0 <= i < j < |a| ==> a[i].0 != a[j].0)
  }

  lemma KeysCons(a: Pairs)
    requires a != []
    ensures Keys(a) == [a[0].0] + Keys(a[1..])
  {
  }

  lemma KeysAppend(a: Pairs, b: Pairs)
    ensures Keys(a + b) == Keys(a) + Keys(b)
  {
  }

  /** The position of key k in a. */
  function IndexOf(a: Pairs, k: PhpString): (i: nat)
    requires k in Keys(a)
    ensures i < |a| && a[i].0 == k
    ensures forall j :: 0 <= j < i ==> a[j].0 != k
  {
    KeysCons(a);
    if a[0].0 == k then 0 else 1 + IndexOf(a[1..], k)
  }

  /** `$a[$k]` when the key may be absent. */
  function Get(a: Pairs, k: PhpString): (r: Option<PhpString>)
    ensures r.Some? <==> k in Keys(a)
  {
    if k in Keys(a) then Some(a[IndexOf(a, k)].1) else None
  }

  function GetOr(a: Pairs, k: PhpString, default: PhpString): PhpString {
    match Get(a, k)
    case Some(v) => v
    case None => default
  }

  lemma GetAt(a: Pairs, i: nat)
    requires IsArray(a) && i < |a|
    ensures Get(a, a[i].0) == Some(a[i].1)
  {
    assert Keys(a)[i] == a[i].0;
  }

  /**
   * The assignment `$a[$k] = $v`: an existing key keeps its position and
   * takes the new value; a new key is appended.
   */
  function Put(a: Pairs, k: PhpString, v: PhpString): (r: Pairs)
    ensures k in Keys(a) ==> r == a[IndexOf(a, k) := (k, v)]
    ensures k !in Keys(a) ==> r == a + [(k, v)]
  {
    if a == [] then [(k, v)]
    else
      KeysCons(a);
      if a[0].0 == k then [(k, v)] + a[1..]
      else [a[0]] + Put(a[1..], k, v)
  }

  /**
   * `array_merge($a, $b)`: start from $a and assign every entry of $b in
   * $b's order.
   */
  function ArrayMerge(a: Pairs, b: Pairs): Pairs
    decreases |b|
  {
    if b == [] then a else ArrayMerge(Put(a, b[0].0, b[0].1), b[1..])
  }

  /** The entries of b whose keys are not among ks, in b's order. */
  function Additions(ks: seq<PhpString>, b: Pairs): (r: Pairs)
    ensures forall x :: x in r <==> x in b && x.0 !in ks
  {
    if b == [] then []
    else (if b[0].0 in ks then [] else [b[0]]) + Additions(ks, b[1..])
  }

  /** The entries of a, each with b's value when b has the same key. */
  function Overlay(a: Pairs, b: Pairs): (r: Pairs)
    ensures Keys(r) == Keys(a)
  {
    seq(|a|, i requires 0 <= i < |a| => (a[i].0, GetOr(b, a[i].0, a[i].1)))
  }

  /**
   * A reference definition of array_merge on string keys: the keys of a
   * in their places with b winning on a shared key, then b's other
   * entries in b's order.
   */
  function MergeSpec(a: Pairs, b: Pairs): Pairs {
    Overlay(a, b) + Additions(Keys(a), b)
  }

  lemma {:induction false} AdditionsKeys(ks: seq<PhpString>, b: Pairs)
    ensures forall k :: k in Keys(Additions(ks, b)) <==> k in Keys(b) && k !in ks
  {
    if b != [] {
      AdditionsKeys(ks, b[1..]);
      KeysCons(b);
      var first: Pairs := if b[0].0 in ks then [] else [b[0]];
      assert Keys(first) == if b[0].0 in ks then [] else [b[0].0];
      KeysAppend(first, Additions(ks, b[1..]));
    }
  }

  lemma {:induction false} AdditionsIsArray(ks: seq<PhpString>, b: Pairs)
    requires IsArray(b)
    ensures IsArray(Additions(ks, b))
  {
    if b != [] {
      AdditionsIsArray(ks, b[1..]);
      var rest := Additions(ks, b[1..]);
      forall x | x in rest ensures x.0 != b[0].0 {
        var j :| 0 <= j < |b[1..]| && b[1..][j] == x;
        assert b[j + 1] == x;
      }
      var r := Additions(ks, b);
      forall i | 0 <= i < |r| ensures !IsIntegerKey(r[i].0) {
        assert r[i] in b;
        var j :| 0 <= j < |b| && b[j] == r[i];
      }
    }
  }

  /** An entry whose key b does not hold leaves b's additions unchanged. */
  lemma {:induction false} AdditionsExtend(ks: seq<PhpString>, k: PhpString, b: Pairs)
    requires k !in Keys(b)
    ensures Additions(ks + [k], b) == Additions(ks, b)
  {
    if b != [] {
      KeysCons(b);
      AdditionsExtend(ks, k, b[1..]);
    }
  }

  lemma GetTail(b: Pairs, k: PhpString)
    requires b != [] && b[0].0 != k
    ensures Get(b, k) == Get(b[1..], k)
  {
    KeysCons(b);
    if k in Keys(b) {
      var i := IndexOf(b, k);
      var j := IndexOf(b[1..], k);
      assert b[j + 1].0 == k;
    }
  }

  lemma GetHead(b: Pairs)
    requires b != []
    ensures Get(b, b[0].0) == Some(b[0].1)
  {
    assert Keys(b)[0] == b[0].0;
  }

  /** In an array the first key does not recur. */
  lemma FirstKeyFresh(b: Pairs)
    requires IsArray(b) && b != []
    ensures b[0].0 !in Keys(b[1..])
  {
    var b' := b[1..];
    forall j | 0 <= j < |b'| ensures Keys(b')[j] != b[0].0 {
      assert b'[j] == b[j + 1];
    }
  }

  /** A key that b does not repeat: b's value for it is its first entry's. */
  lemma FirstKeyUnique(b: Pairs)
    requires IsArray(b) && b != []
    ensures b[0].0 !in Keys(b[1..])
    ensures Get(b, b[0].0) == Some(b[0].1)
    ensures forall key :: key != b[0].0 ==> Get(b[1..], key) == Get(b, key)
  {
    var b' := b[1..];
    FirstKeyFresh(b);
    GetHead(b);
    forall key | key != b[0].0 ensures Get(b', key) == Get(b, key) {
      GetTail(b, key);
    }
  }

  /** b's first entry, with a key a holds, replaces that key's value in place. */
  lemma OverlayStepShared(a: Pairs, b: Pairs)
    requires IsArray(a) && IsArray(b) && b != [] && b[0].0 in Keys(a)
    ensures Keys(Put(a, b[0].0, b[0].1)) == Keys(a)
    ensures Overlay(Put(a, b[0].0, b[0].1), b[1..]) == Overlay(a, b)
  {
    var k, v := b[0].0, b[0].1;
    var b', a' := b[1..], Put(a, k, v);
    var p := IndexOf(a, k);
    assert a' == a[p := (k, v)];
    assert Keys(a') == Keys(a);
    FirstKeyUnique(b);
    forall i | 0 <= i < |a| ensures Overlay(a', b')[i] == Overlay(a, b)[i] {
      if i != p {
        assert a[i].0 != k;
        assert Get(b', a[i].0) == Get(b, a[i].0);
      }
    }
  }

  /** Assigning an entry whose key a already holds: a's keys stay, in place. */
  lemma MergeStepShared(a: Pairs, b: Pairs)
    requires IsArray(a) && IsArray(b) && b != [] && b[0].0 in Keys(a)
    ensures IsArray(Put(a, b[0].0, b[0].1))
    ensures MergeSpec(Put(a, b[0].0, b[0].1), b[1..]) == MergeSpec(a, b)
  {
    var a' := Put(a, b[0].0, b[0].1);
    OverlayStepShared(a, b);
    assert IsArray(a') by {
      forall i | 0 <= i < |a'| ensures !IsIntegerKey(a'[i].0) {
        assert Keys(a')[i] == Keys(a)[i];
      }
      forall i, j | 0 <= i < j < |a'| ensures a'[i].0 != a'[j].0 {
        assert Keys(a')[i] == Keys(a)[i] && Keys(a')[j] == Keys(a)[j];
      }
    }
    assert Additions(Keys(a), b) == Additions(Keys(a), b[1..]);
  }

  /** Appending an entry with a fresh key keeps the keys distinct. */
  lemma AppendFresh(a: Pairs, k: PhpString, v: PhpString)
    requires IsArray(a) && !IsIntegerKey(k) && k !in Keys(a)
    ensures IsArray(a + [(k, v)])
    ensures Keys(a + [(k, v)]) == Keys(a) + [k]
  {
    KeysAppend(a, [(k, v)]);
    assert Keys([(k, v)]) == [k];
    forall i | 0 <= i < |a| ensures a[i].0 != k {
      assert Keys(a)[i] == a[i].0;
    }
  }

  /** b's first entry, with a key a lacks, overlays nothing of a. */
  lemma OverlayStepNew(a: Pairs, b: Pairs)
    requires IsArray(b) && b != [] && b[0].0 !in Keys(a)
    ensures Overlay(a + [b[0]], b[1..]) == Overlay(a, b) + [b[0]]
  {
    FirstKeyUnique(b);
    forall i | 0 <= i < |a| ensures Overlay(a + [b[0]], b[1..])[i] == Overlay(a, b)[i] {
      assert a[i].0 != b[0].0 by {
        assert Keys(a)[i] == a[i].0;
      }
    }
  }

  /** The reference merge after appending b's first entry, whose key is new to a and to b's rest. */
  lemma MergeSpecAppend(a: Pairs, b: Pairs)
    requires b != [] && b[0].0 !in Keys(a) && b[0].0 !in Keys(b[1..])
    requires Overlay(a + [b[0]], b[1..]) == Overlay(a, b) + [b[0]]
    ensures MergeSpec(a + [b[0]], b[1..]) == MergeSpec(a, b)
  {
    var k, b' := b[0].0, b[1..];
    var o, d := Overlay(a, b), Additions(Keys(a), b');
    KeysAppend(a, [b[0]]);
    assert Keys([b[0]]) == [k];
    AdditionsExtend(Keys(a), k, b');
    calc {
      MergeSpec(a + [b[0]], b');
      (o + [b[0]]) + Additions(Keys(a) + [k], b');
      (o + [b[0]]) + d;
      o + ([b[0]] + d);
      o + Additions(Keys(a), b);
    }
  }

  /** Assigning an entry whose key a lacks: it is appended after a's keys. */
  lemma MergeStepNew(a: Pairs, b: Pairs)
    requires IsArray(a) && IsArray(b) && b != [] && b[0].0 !in Keys(a)
    ensures IsArray(Put(a, b[0].0, b[0].1))
    ensures MergeSpec(Put(a, b[0].0, b[0].1), b[1..]) == MergeSpec(a, b)
  {
    AppendFresh(a, b[0].0, b[0].1);
    OverlayStepNew(a, b);
    FirstKeyFresh(b);
    MergeSpecAppend(a, b);
  }

  /** array_merge agrees with the reference definition. */
  lemma {:induction false} ArrayMergeIsMergeSpec(a: Pairs, b: Pairs)
    requires IsArray(a) && IsArray(b)
    ensures ArrayMerge(a, b) == MergeSpec(a, b)
    decreases |b|
  {
    if b == [] {
      assert Overlay(a, b) == a;
    } else {
      if b[0].0 in Keys(a) {
        MergeStepShared(a, b);
      } else {
        MergeStepNew(a, b);
      }
      ArrayMergeIsMergeSpec(Put(a, b[0].0, b[0].1), b[1..]);
    }
  }

  /** Every key of either input appears exactly once in the merge. */
  lemma MergeKeys(a: Pairs, b: Pairs)
    requires IsArray(a) && IsArray(b)
    ensures IsArray(ArrayMerge(a, b))
    ensures forall k :: k in Keys(ArrayMerge(a, b)) <==> k in Keys(a) || k in Keys(b)
  {
    ArrayMergeIsMergeSpec(a, b);
    var o, d := Overlay(a, b), Additions(Keys(a), b);
    AdditionsIsArray(Keys(a), b);
    AdditionsKeys(Keys(a), b);
    KeysAppend(o, d);
    forall i, j | 0 <= i < |o| && 0 <= j < |d| ensures o[i].0 != d[j].0 {
      assert Keys(d)[j] == d[j].0;
      assert Keys(a)[i] == o[i].0;
    }
    forall i | 0 <= i < |o| ensures !IsIntegerKey(o[i].0) {
      assert Keys(a)[i] == o[i].0;
    }
  }

  /** On a shared key the second array's value wins; otherwise each keeps its own. */
  lemma MergeGet(a: Pairs, b: Pairs, k: PhpString)
    requires IsArray(a) && IsArray(b)
    ensures Get(ArrayMerge(a, b), k) == if k in Keys(b) then Get(b, k) else Get(a, k)
  {
    MergeKeys(a, b);
    ArrayMergeIsMergeSpec(a, b);
    var m := ArrayMerge(a, b);
    var o, d := Overlay(a, b), Additions(Keys(a), b);
    if k in Keys(a) {
      var i := IndexOf(a, k);
      GetAt(m, i);
    } else if k in Keys(b) {
      var j := IndexOf(b, k);
      assert b[j] in d;
      var t :| 0 <= t < |d| && d[t] == b[j];
      GetAt(m, |o| + t);
      GetAt(b, j);
    }
  }

  /**
   * The merge begins with a's keys in a's order; the entries after them
   * are b's entries whose keys a lacks, in b's order.
   */
  lemma MergeOrder(a: Pairs, b: Pairs)
    requires IsArray(a) && IsArray(b)
    ensures |ArrayMerge(a, b)| >= |a|
    ensures Keys(ArrayMerge(a, b)[..|a|]) == Keys(a)
    ensures ArrayMerge(a, b)[|a|..] == Additions(Keys(a), b)
  {
    ArrayMergeIsMergeSpec(a, b);
    var m := ArrayMerge(a, b);
    assert m[..|a|] == Overlay(a, b);
  }
}
