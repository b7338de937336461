/** The helpers compiled views call (ServeRick/Compiling/CompilerHelpers.cs): dictionaries
    built from pairs, attribute rendering, null-aware equality and negation. A dictionary
    is a `map`; an enumerable of pairs is a sequence in enumeration order; a C# `null` is
    `None`. */
module CompilerHelpers {
  import opened Results
  import opened Text

  datatype HelperError = DuplicateKey   // `Dictionary.Add` of a key already present

  /** The keys some pair carries. */
  ghost function KeysOf<K, V>(pairs: seq<(K, V)>): set<K> {
    set i | 0 <= i < |pairs| :: pairs[i].0
  }

  /** No key is carried by two pairs. */
  predicate DistinctKeys<K(==), V>(pairs: seq<(K, V)>) {
    forall i, j :: 0 <= i < j < |pairs| ==> pairs[i].0 != pairs[j].0
  }

  /** `pairs[i]` is the last pair with its key. */
  ghost predicate LastWithKey<K, V>(pairs: seq<(K, V)>, i: int) {
    0 <= i < |pairs| && forall j :: i < j < |pairs| ==> pairs[j].0 != pairs[i].0
  }

  lemma KeysOfSnoc<K, V>(pairs: seq<(K, V)>)
    requires |pairs| > 0
    ensures KeysOf(pairs) == KeysOf(pairs[..|pairs| - 1]) + {pairs[|pairs| - 1].0}
  {
    var prefix := pairs[..|pairs| - 1];
    forall k | k in KeysOf(pairs) ensures k in KeysOf(prefix) + {pairs[|pairs| - 1].0} {
      var i :| 0 <= i < |pairs| && pairs[i].0 == k;
      if i < |prefix| {
        assert prefix[i] == pairs[i];
      }
    }
    forall k | k in KeysOf(prefix) ensures k in KeysOf(pairs) {
      var i :| 0 <= i < |prefix| && prefix[i].0 == k;
      assert pairs[i] == prefix[i];
    }
  }

  /** `PairsToContainer`: each pair in turn is stored by indexer assignment, so a later
      pair with the same key replaces an earlier one. The state after the pairs before the
      last, then the last. */
  function PairsToContainer<K, V>(pairs: seq<(K, V)>): (m: map<K, V>)
    ensures m.Keys == KeysOf(pairs)
    decreases |pairs|
  {
    if |pairs| == 0 then map[]
    else
      var last := pairs[|pairs| - 1];
      KeysOfSnoc(pairs);
      PairsToContainer(pairs[..|pairs| - 1])[last.0 := last.1]
  }

  /** A key ends up with the value of the last pair carrying it. */
  lemma {:induction false} PairsLastWins<K, V>(pairs: seq<(K, V)>, i: int)
    requires LastWithKey(pairs, i)
    ensures pairs[i].0 in PairsToContainer(pairs) && PairsToContainer(pairs)[pairs[i].0] == pairs[i].1
    decreases |pairs|
  {
    if i < |pairs| - 1 {
      var prefix := pairs[..|pairs| - 1];
      assert prefix[i] == pairs[i];
      assert LastWithKey(prefix, i) by {
        forall j | i < j < |prefix| ensures prefix[j].0 != prefix[i].0 {
          assert prefix[j] == pairs[j];
        }
      }
      PairsLastWins(prefix, i);
    }
  }

  /** `CreateDictionary`: each pair in turn is stored by `Add`, which throws on a key
      already present. */
  function CreateDictionary<K, V>(pairs: seq<(K, V)>): (r: Result<map<K, V>, HelperError>)
    ensures r.Ok? <==> DistinctKeys(pairs)
    ensures r.Ok? ==> r.value == PairsToContainer(pairs)
    decreases |pairs|
  {
    if |pairs| == 0 then Ok(map[])
    else
      var prefix := pairs[..|pairs| - 1];
      var last := pairs[|pairs| - 1];
      var prev := CreateDictionary(prefix);
      CreateStep(pairs);
      if prev.Throws? then prev
      else if last.0 in prev.value then Throws(DuplicateKey)
      else Ok(prev.value[last.0 := last.1])
  }

  /** The pairs have distinct keys exactly when the ones before the last do and the last
      key is new. */
  lemma CreateStep<K, V>(pairs: seq<(K, V)>)
    requires |pairs| > 0
    ensures var prefix := pairs[..|pairs| - 1];
      DistinctKeys(pairs) <==> DistinctKeys(prefix) && pairs[|pairs| - 1].0 !in KeysOf(prefix)
  {
    var prefix := pairs[..|pairs| - 1];
    var n := |pairs| - 1;
    if DistinctKeys(pairs) {
      assert DistinctKeys(prefix) by {
        forall i, j | 0 <= i < j < |prefix| ensures prefix[i].0 != prefix[j].0 {
          assert prefix[i] == pairs[i] && prefix[j] == pairs[j];
        }
      }
    }
    if DistinctKeys(prefix) && pairs[n].0 !in KeysOf(prefix) {
      forall i, j | 0 <= i < j < |pairs| ensures pairs[i].0 != pairs[j].0 {
        assert pairs[i] == prefix[i];
        if j < n {
          assert pairs[j] == prefix[j];
        } else {
          assert prefix[i].0 in KeysOf(prefix);
        }
      }
    }
  }

  /** `SetValue`: the key is (re)bound to the value and the same container is returned;
      every other entry is unchanged. */
  function SetValue<K, V>(container: map<K, V>, key: K, value: V): (r: map<K, V>)
    ensures r.Keys == container.Keys + {key} && r[key] == value
    ensures forall k :: k in container && k != key ==> r[k] == container[k]
  {
    container[key := value]
  }

  /** The text one attribute contributes: `name="value" `, trailing space included. */
  function AttributeText(pair: (string, string)): string {
    pair.0 + "=\"" + pair.1 + "\" "
  }

  /** The attribute texts of the pairs in enumeration order. */
  function AttributeTexts(pairs: seq<(string, string)>): string
    decreases |pairs|
  {
    if |pairs| == 0 then "" else AttributeTexts(pairs[..|pairs| - 1]) + AttributeText(pairs[|pairs| - 1])
  }

  /** Rendering a sequence of pairs is rendering its parts one after the other. */
  lemma {:induction false} AttributeTextsAppend(a: seq<(string, string)>, b: seq<(string, string)>)
    ensures AttributeTexts(a + b) == AttributeTexts(a) + AttributeTexts(b)
    decreases |b|
  {
    if |b| > 0 {
      var b' := b[..|b| - 1];
      assert (a + b)[..|a + b| - 1] == a + b';
      assert (a + b)[|a + b| - 1] == b[|b| - 1];
      AttributeTextsAppend(a, b');
      assert AttributeTexts(a + b) == AttributeTexts(a) + AttributeTexts(b') + AttributeText(b[|b| - 1]);
    } else {
      assert a + b == a;
    }
  }

  /** `AttributesToString`: nothing for no attributes, otherwise a leading space and then
      each attribute followed by a space. */
  method AttributesToString(attributes: seq<(string, string)>) returns (r: string)
    ensures |attributes| == 0 ==> r == ""
    ensures |attributes| > 0 ==> r == " " + AttributeTexts(attributes)
  {
    r := "";
    if |attributes| > 0 {
      r := r + " ";
    }
    var i := 0;
    while i < |attributes|
      invariant 0 <= i <= |attributes|
      invariant r == (if |attributes| > 0 then " " else "") + AttributeTexts(attributes[..i])
    {
      assert attributes[..i + 1][..i] == attributes[..i];
      r := r + AttributeText(attributes[i]);
      i := i + 1;
    }
    assert attributes[..i] == attributes;
  }

  /** Each attribute's text appears in the rendering, after the texts of the attributes
      enumerated before it. */
  lemma AttributesRenderEach(attributes: seq<(string, string)>, i: int)
    requires 0 <= i < |attributes|
    ensures AttributeTexts(attributes)
      == AttributeTexts(attributes[..i]) + AttributeText(attributes[i]) + AttributeTexts(attributes[i + 1..])
  {
    var before, after := attributes[..i], attributes[i + 1..];
    var upTo := before + [attributes[i]];
    CutAround(attributes, i);
    TakeSnoc(before, attributes[i]);
    AttributeTextsAppend(upTo, after);
    assert AttributeTexts(upTo) == AttributeTexts(before) + AttributeText(attributes[i]);
  }

  /** `IsEqual`: a null first operand equals only null; otherwise the first operand's
      `Equals`, which by the .NET contract is false for a null argument. */
  function IsEqual<T>(obj1: Option<T>, obj2: Option<T>, equals: (T, T) -> bool): (r: bool)
    ensures (obj1.None? || obj2.None?) ==> (r <==> obj1.None? && obj2.None?)
    ensures obj1.Some? && obj2.Some? ==> (r <==> equals(obj1.value, obj2.value))
  {
    match obj1
    case None => obj2.None?
    case Some(v) => obj2.Some? && equals(v, obj2.value)
  }

  /** With value equality as `Equals`, `IsEqual` is equality of the possibly-null
      operands, in both directions. */
  lemma IsEqualIsEquality<T>(obj1: Option<T>, obj2: Option<T>, equals: (T, T) -> bool)
    requires forall a: T, b: T :: equals(a, b) <==> a == b
    ensures IsEqual(obj1, obj2, equals) <==> obj1 == obj2
  {
    if obj1.Some? && obj2.Some? {
      assert equals(obj1.value, obj2.value) <==> obj1.value == obj2.value;
    }
  }

  /** `Not`. */
  function Not(value: bool): (r: bool)
    ensures r != value
  {
    !value
  }
}
