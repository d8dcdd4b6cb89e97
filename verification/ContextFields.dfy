/**
  Context fields of a payload (pkg/protocol/payload.go): key cleaning, typed values, the sorted
  order in which the keys travel, and what arrives for each value.
*/
module ContextFields {
  import opened Bytes
  import opened Values
  import opened Options
  import opened InnerPayload

  datatype Failure = InvalidPayload | FieldFailure | CryptoFailure | FragmentationFailure | ProtocolFailure | UnknownSuite | Panicked

  datatype Checked<+T> = Valid(value: T) | Invalid(why: Failure) {
    predicate IsFailure() { Invalid? }
    function PropagateFailure<U>(): Checked<U> requires Invalid? { Invalid(why) }
    function Extract(): T requires Valid? { value }
  }

  const MAX_KEY := 32
  const MAX_VALUE := 255

  // ----- Context fields -----

  function ToField(key: seq<byte>, v: Value): Checked<Field> {
    var cleanKey := Clean(key, MAX_KEY);
    if cleanKey == [] then Invalid(InvalidPayload)
    else if v.Nil? then Valid(Field(cleanKey, STRING, EMPTY_FIELD))
    else
      match Serialize(v)
      case None => Invalid(FieldFailure)
      case Some((t, data)) =>
        var value := if data == [] then EMPTY_FIELD else data;
        if |value| > MAX_VALUE then Invalid(InvalidPayload)
        else if t == STRING && !ValidUtf8(value) then Invalid(InvalidPayload)
        else Valid(Field(cleanKey, t, value))
  }

  // The fields in the order of keys.
  function ToFields(m: map<seq<byte>, Value>, keys: seq<seq<byte>>): Checked<seq<Field>>
    requires forall k :: k in keys ==> k in m
  {
    if keys == [] then Valid([])
    else
      var init :- ToFields(m, keys[..|keys|-1]);
      var last :- ToField(keys[|keys|-1], m[keys[|keys|-1]]);
      Valid(init + [last])
  }

  function FromField(f: Field): Checked<Value> {
    if !(1 <= |f.key| <= MAX_KEY) || !IsPrintable(f.key) || !(1 <= |f.value| <= MAX_VALUE) then Invalid(InvalidPayload)
    else if f.valType == STRING && !ValidUtf8(f.value) then Invalid(InvalidPayload)
    else
      match Deserialize(f.valType, f.value)
      case None => Invalid(FieldFailure)
      case Some(v) => Valid(v)
  }

  // A later field with the same key wins.
  function FromFields(fields: seq<Field>): Checked<map<seq<byte>, Value>> {
    if fields == [] then Valid(map[])
    else
      var init :- FromFields(fields[..|fields|-1]);
      var last :- FromField(fields[|fields|-1]);
      Valid(init[fields[|fields|-1].key := last])
  }

  // The value that arrives for v: its canonical form, or the placeholder for nothing.
  function Arrives(v: Value): Value {
    if v.Nil? || (v.Str? && StripNul(v.s) == []) then Str(EMPTY_FIELD) else Canonical(v)
  }

  // Not a number nor an infinity: the one thing that is sent but not accepted.
  predicate Acceptable(v: Value) {
    (v.Float32? ==> Finite32(v.bits32)) && (v.Float64? ==> Finite64(v.bits64))
  }

  lemma {:induction false} PlaceholderIsText()
    ensures ValidUtf8(EMPTY_FIELD) && IsPrintable(EMPTY_FIELD)
  {
    assert EMPTY_FIELD[1..] == [];
    assert ValidUtf8(EMPTY_FIELD[RuneLen(EMPTY_FIELD)..]);
  }

  lemma {:induction false} FieldArrives(key: seq<byte>, v: Value)
    requires Clean(key, MAX_KEY) == key && ToField(key, v).Valid? && Acceptable(v)
    ensures var f := ToField(key, v).value;
            f.key == key && FieldOk(f) && FromField(f) == Valid(Arrives(v))
  {
    PlaceholderIsText();
    CleanStable(key, MAX_KEY);
    if !v.Nil? { ValueRoundTrip(v); }
  }

  predicate Distinct<T(==)>(s: seq<T>) { forall i, j :: 0 <= i < j < |s| ==> s[i] != s[j] }

  // keys lists every member of m once.
  ghost predicate Enumerates(keys: seq<seq<byte>>, m: set<seq<byte>>) {
    Distinct(keys) && (forall k :: k in keys <==> k in m)
  }

  // A listing with one element taken out.
  lemma {:induction false} WithoutAt<T>(xs: seq<T>, i: nat)
    requires Distinct(xs) && i < |xs|
    ensures var rest := xs[..i] + xs[i+1..];
            Distinct(rest) && forall x :: x in rest <==> x in xs && x != xs[i]
  {
    var rest := xs[..i] + xs[i+1..];
    assert forall j :: 0 <= j < |rest| ==> rest[j] == xs[if j < i then j else j + 1];
    forall x | x in xs && x != xs[i] ensures x in rest {
      var j: nat :| j < |xs| && xs[j] == x;
      assert rest[if j < i then j else j - 1] == x;
    }
  }

  predicate CleanKeys(keys: seq<seq<byte>>) { forall k :: k in keys ==> Clean(k, MAX_KEY) == k }

  function ArrivingFields(m: map<seq<byte>, Value>, keys: seq<seq<byte>>): map<seq<byte>, Value>
    requires forall k :: k in keys ==> k in m
  {
    map k | k in keys :: Arrives(m[k])
  }

  lemma {:induction false} ArrivingOneMore(m: map<seq<byte>, Value>, keys: seq<seq<byte>>)
    requires (forall k :: k in keys ==> k in m) && keys != []
    ensures var init, last := keys[..|keys|-1], keys[|keys|-1];
            ArrivingFields(m, keys) == ArrivingFields(m, init)[last := Arrives(m[last])]
  {
    var init, last := keys[..|keys|-1], keys[|keys|-1];
    assert keys == init + [last];
  }

  lemma {:induction false} FromFieldsOneMore(fields: seq<Field>, f: Field, m: map<seq<byte>, Value>, v: Value)
    requires FromFields(fields) == Valid(m) && FromField(f) == Valid(v)
    ensures FromFields(fields + [f]) == Valid(m[f.key := v])
  {
    assert (fields + [f])[..|fields + [f]|-1] == fields;
  }

  lemma {:induction false} FieldsArrive(m: map<seq<byte>, Value>, keys: seq<seq<byte>>)
    requires (forall k :: k in keys ==> k in m) && Distinct(keys) && CleanKeys(keys)
    requires ToFields(m, keys).Valid? && forall k :: k in keys ==> Acceptable(m[k])
    ensures var fields := ToFields(m, keys).value;
            |fields| == |keys| && FieldsOk(fields) && FromFields(fields) == Valid(ArrivingFields(m, keys))
  {
    if keys != [] {
      var init, last := keys[..|keys|-1], keys[|keys|-1];
      assert forall k :: k in init ==> k in keys;
      assert last in keys;
      var fields, f := ToFields(m, init).value, ToField(last, m[last]).value;
      FieldsArrive(m, init);
      FieldArrives(last, m[last]);
      FromFieldsOneMore(fields, f, ArrivingFields(m, init), Arrives(m[last]));
      ArrivingOneMore(m, keys);
    }
  }

  // ----- Key order (sort.Strings) -----

  predicate Before(a: seq<byte>, b: seq<byte>) {
    b != [] && (a == [] || a[0] < b[0] || (a[0] == b[0] && Before(a[1..], b[1..])))
  }

  lemma {:induction false} BeforeIsTotal(a: seq<byte>, b: seq<byte>)
    ensures a == b || Before(a, b) || Before(b, a)
    ensures !(Before(a, b) && (Before(b, a) || a == b))
  {
    if a != [] && b != [] && a[0] == b[0] {
      BeforeIsTotal(a[1..], b[1..]);
      if a[1..] == b[1..] { assert a == [a[0]] + a[1..] == b; }
    }
  }

  lemma {:induction false} BeforeIsTransitive(a: seq<byte>, b: seq<byte>, c: seq<byte>)
    requires Before(a, b) && Before(b, c)
    ensures Before(a, c)
  {
    if a != [] && a[0] == b[0] == c[0] { BeforeIsTransitive(a[1..], b[1..], c[1..]); }
  }

  predicate Sorted(keys: seq<seq<byte>>) { forall i, j :: 0 <= i < j < |keys| ==> Before(keys[i], keys[j]) }

  // A set of keys has one sorted listing, so the wire order does not depend on map iteration.
  lemma {:induction false} OneSortedOrder(xs: seq<seq<byte>>, ys: seq<seq<byte>>)
    requires Sorted(xs) && Sorted(ys) && forall k :: k in xs <==> k in ys
    ensures xs == ys
  {
    assert ys != [] ==> ys[0] in ys;
    if xs != [] {
      assert xs[0] in ys;
      assert ys[0] in xs;
      var i: nat :| i < |ys| && ys[i] == xs[0];
      var j: nat :| j < |xs| && xs[j] == ys[0];
      BeforeIsTotal(xs[0], ys[0]);
      assert xs[0] == ys[0];
      forall k ensures k in xs[1..] <==> k in ys[1..] {
        BeforeIsTotal(k, k);
        TailMember(xs, k);
        TailMember(ys, k);
      }
      OneSortedOrder(xs[1..], ys[1..]);
      assert xs == [xs[0]] + xs[1..] && ys == [ys[0]] + ys[1..];
    }
  }

  lemma {:induction false} TailMember(xs: seq<seq<byte>>, k: seq<byte>)
    requires Sorted(xs) && xs != []
    ensures k in xs[1..] <==> k in xs && k != xs[0]
  {
    BeforeIsTotal(xs[0], xs[0]);
    if k in xs && k != xs[0] {
      var i: nat :| i < |xs| && xs[i] == k;
      assert k == xs[1..][i - 1];
    }
  }

  // The sorted keys.
  ghost function SortedKeys(keys: set<seq<byte>>): (r: seq<seq<byte>>)
    ensures Sorted(r) && forall k :: k in r <==> k in keys
  {
    SortingExists(keys);
    var r :| Sorted(r) && forall k :: k in r <==> k in keys;
    r
  }

  lemma {:induction false} SortedKeysDistinct(keys: set<seq<byte>>)
    ensures Enumerates(SortedKeys(keys), keys)
  {
    var r := SortedKeys(keys);
    forall i, j | 0 <= i < j < |r| ensures r[i] != r[j] { BeforeIsTotal(r[i], r[j]); }
  }

  lemma {:induction false} SortingExists(keys: set<seq<byte>>)
    ensures exists r :: Sorted(r) && forall k :: k in r <==> k in keys
  {
    if keys == {} {
      var none: seq<seq<byte>> := [];
      assert Sorted(none) && forall k :: k in none <==> k in keys;
    } else {
      var k :| k in keys;
      SortingExists(keys - {k});
      var r :| Sorted(r) && forall x :: x in r <==> x in keys - {k};
      var i := InsertionPoint(r, k);
      InsertSorted(r, k, i);
    }
  }

  // The number of keys before k.
  function InsertionPoint(keys: seq<seq<byte>>, k: seq<byte>): (i: nat)
    ensures i <= |keys|
  {
    if keys == [] || Before(k, keys[0]) then 0 else 1 + InsertionPoint(keys[1..], k)
  }

  lemma {:induction false} InsertionPointSplits(keys: seq<seq<byte>>, k: seq<byte>)
    requires Sorted(keys) && k !in keys
    ensures var i := InsertionPoint(keys, k);
            && (forall j :: 0 <= j < i ==> Before(keys[j], k))
            && (forall j :: i <= j < |keys| ==> Before(k, keys[j]))
  {
    if keys != [] {
      if Before(k, keys[0]) {
        forall j | 0 <= j < |keys| ensures Before(k, keys[j]) {
          if j > 0 { BeforeIsTransitive(k, keys[0], keys[j]); }
        }
      } else {
        BeforeIsTotal(k, keys[0]);
        assert keys[0] in keys;
        InsertionPointSplits(keys[1..], k);
        var i := InsertionPoint(keys, k);
        assert forall j :: 1 <= j < |keys| ==> keys[j] == keys[1..][j - 1];
      }
    }
  }

  function InsertAt(keys: seq<seq<byte>>, k: seq<byte>, i: nat): (r: seq<seq<byte>>)
    requires i <= |keys|
    ensures |r| == |keys| + 1 && r[i] == k
    ensures forall j :: 0 <= j < i ==> r[j] == keys[j]
    ensures forall j :: i < j < |r| ==> r[j] == keys[j - 1]
  {
    keys[..i] + [k] + keys[i..]
  }

  lemma {:induction false} InsertSorted(keys: seq<seq<byte>>, k: seq<byte>, i: nat)
    requires Sorted(keys) && k !in keys && i == InsertionPoint(keys, k)
    ensures Sorted(InsertAt(keys, k, i))
    ensures forall x :: x in InsertAt(keys, k, i) <==> x in keys || x == k
  {
    InsertionPointSplits(keys, k);
    var r := InsertAt(keys, k, i);
    forall x ensures x in r <==> x in keys || x == k {
      if x in keys {
        var j: nat :| j < |keys| && keys[j] == x;
        assert r[if j < i then j else j + 1] == x;
      }
    }
  }

  // Collects the keys in map order and sorts them.
  method SortKeys(keys: set<seq<byte>>) returns (sorted: seq<seq<byte>>)
    ensures sorted == SortedKeys(keys)
  {
    sorted := [];
    var rest := keys;
    while rest != {}
      invariant rest <= keys && Sorted(sorted)
      invariant forall k :: k in sorted <==> k in keys - rest
    {
      var k :| k in rest;
      var i := InsertionPoint(sorted, k);
      InsertSorted(sorted, k, i);
      sorted := InsertAt(sorted, k, i);
      rest := rest - {k};
    }
    OneSortedOrder(sorted, SortedKeys(keys));
  }

  // ----- All fields of a payload -----

  predicate CleanFields(m: map<seq<byte>, Value>) {
    forall k :: k in m ==> Clean(k, MAX_KEY) == k && Acceptable(m[k])
  }

  function AllArrive(m: map<seq<byte>, Value>): map<seq<byte>, Value> { map k | k in m :: Arrives(m[k]) }

  ghost function WireFields(m: map<seq<byte>, Value>): Checked<seq<Field>> { ToFields(m, SortedKeys(m.Keys)) }

  lemma {:induction false} AllFieldsArrive(m: map<seq<byte>, Value>)
    requires CleanFields(m) && WireFields(m).Valid?
    ensures FieldsOk(WireFields(m).value) && FromFields(WireFields(m).value) == Valid(AllArrive(m))
    ensures |WireFields(m).value| == |m|
  {
    var keys := SortedKeys(m.Keys);
    SortedKeysDistinct(m.Keys);
    FieldsArrive(m, keys);
    assert ArrivingFields(m, keys) == AllArrive(m);
    ListingSize(keys, m.Keys);
  }

  lemma {:induction false} ListingSize(keys: seq<seq<byte>>, s: set<seq<byte>>)
    requires Enumerates(keys, s)
    ensures |keys| == |s|
  {
    if keys == [] {
      assert s == {};
    } else {
      var init, last := keys[..|keys|-1], keys[|keys|-1];
      assert keys == init + [last];
      ListingSize(init, s - {last});
    }
  }

  lemma {:induction false} AllFieldsValid(m: map<seq<byte>, Value>, keys: seq<seq<byte>>)
    requires forall k :: k in keys ==> k in m && ToField(k, m[k]).Valid?
    ensures ToFields(m, keys).Valid?
  {
    if keys != [] {
      assert keys[|keys|-1] in keys && forall k :: k in keys[..|keys|-1] ==> k in keys;
      AllFieldsValid(m, keys[..|keys|-1]);
    }
  }

  // A failing field fails every longer listing.
  lemma {:induction false} ToFieldsStops(m: map<seq<byte>, Value>, keys: seq<seq<byte>>, n: nat)
    requires (forall k :: k in keys ==> k in m) && n <= |keys| && ToFields(m, keys[..n]).Invalid?
    ensures ToFields(m, keys) == ToFields(m, keys[..n])
  {
    assert keys[..|keys|] == keys;
    if n < |keys| {
      var init := keys[..|keys|-1];
      assert init[..n] == keys[..n];
      ToFieldsStops(m, init, n);
    }
  }

  lemma {:induction false} FromFieldsStops(fields: seq<Field>, n: nat)
    requires n <= |fields| && FromFields(fields[..n]).Invalid?
    ensures FromFields(fields) == FromFields(fields[..n])
  {
    assert fields[..|fields|] == fields;
    if n < |fields| {
      var init := fields[..|fields|-1];
      assert init[..n] == fields[..n];
      FromFieldsStops(init, n);
    }
  }

  lemma {:induction false} ToFieldsOneMore(m: map<seq<byte>, Value>, keys: seq<seq<byte>>, i: nat)
    requires (forall k :: k in keys ==> k in m) && i < |keys| && ToFields(m, keys[..i]).Valid?
    ensures var one := ToField(keys[i], m[keys[i]]);
            ToFields(m, keys[..i+1]) == if one.Valid? then Valid(ToFields(m, keys[..i]).value + [one.value]) else Invalid(one.why)
  {
    assert keys[..i+1][..i] == keys[..i];
  }

  lemma {:induction false} SectionOneMore(fields: seq<Field>, f: Field)
    ensures |PrintFields(fields + [f])| == |PrintFields(fields)| + 1 + |f.key| + 1 + 1 + 1 + |f.value| + 1
  {
    assert (fields + [f])[..|fields|] == fields;
  }

  // The loop over the sorted keys, with its running length.
  method BuildFields(m: map<seq<byte>, Value>) returns (fields: Checked<seq<Field>>, total: nat)
    ensures fields == WireFields(m)
    ensures fields.Valid? ==> total == |PrintFields(fields.value)|
  {
    var keys := SortKeys(m.Keys);
    total := 0;
    var built: seq<Field> := [];
    for i := 0 to |keys|
      invariant forall k :: k in keys ==> k in m
      invariant ToFields(m, keys[..i]) == Valid(built) && total == |PrintFields(built)|
    {
      ToFieldsOneMore(m, keys, i);
      var one := ToField(keys[i], m[keys[i]]);
      if one.Invalid? {
        ToFieldsStops(m, keys, i + 1);
        return Invalid(one.why), total;
      }
      SectionOneMore(built, one.value);
      built := built + [one.value];
      total := total + 1 + |one.value.key| + 1 + 1 + 1 + |one.value.value| + 1;
    }
    assert keys[..|keys|] == keys;
    fields := Valid(built);
  }

  // The loop that fills the field map.
  method ReadFieldMap(fields: seq<Field>) returns (m: Checked<map<seq<byte>, Value>>)
    ensures m == FromFields(fields)
  {
    var acc: map<seq<byte>, Value> := map[];
    for i := 0 to |fields|
      invariant FromFields(fields[..i]) == Valid(acc)
    {
      assert fields[..i+1][..i] == fields[..i];
      var v := FromField(fields[i]);
      if v.Invalid? {
        FromFieldsStops(fields, i + 1);
        return Invalid(v.why);
      }
      acc := acc[fields[i].key := v.value];
    }
    assert fields[..|fields|] == fields;
    m := Valid(acc);
  }

  // What was accepted is canonical and arrives as it is.
  predicate NulFree(m: map<seq<byte>, Value>) { forall k :: k in m && m[k].Str? ==> 0 !in m[k].s }

  predicate Settled(v: Value) { Acceptable(v) && (Arrives(v) == v || (v.Str? && 0 in v.s)) }

  lemma {:induction false} CanonicalIsSettled(v: Value)
    requires Decodable(v) && (v.Str? ==> v.s != []) && (!v.Str? ==> Canonical(v) == v)
    ensures Settled(v)
  {
    if v.Str? { StripNulId(v.s); }
  }

  lemma {:induction false} AcceptedFieldArrives(f: Field)
    requires FromField(f).Valid?
    ensures Clean(f.key, MAX_KEY) == f.key && Settled(FromField(f).value)
  {
    CleanStable(f.key, MAX_KEY);
    var decoded := Deserialize(f.valType, f.value);
    assert decoded == Some(FromField(f).value);
    AcceptedIsExact(f.valType, f.value);
    CanonicalIsSettled(decoded.value);
  }

  lemma {:induction false} AcceptedFieldsSettled(fields: seq<Field>)
    requires FromFields(fields).Valid?
    ensures var m := FromFields(fields).value;
            forall k :: k in m ==> Clean(k, MAX_KEY) == k && Settled(m[k])
  {
    if fields != [] {
      AcceptedFieldsSettled(fields[..|fields|-1]);
      AcceptedFieldArrives(fields[|fields|-1]);
    }
  }

  lemma {:induction false} AcceptedFieldsArrive(fields: seq<Field>)
    requires FromFields(fields).Valid?
    ensures var m := FromFields(fields).value;
            CleanFields(m) && (NulFree(m) ==> AllArrive(m) == m)
  {
    AcceptedFieldsSettled(fields);
  }

  // ----- Sums over keys -----

  function Sum(weight: seq<byte> -> nat, keys: seq<seq<byte>>): nat {
    if keys == [] then 0 else Sum(weight, keys[..|keys|-1]) + weight(keys[|keys|-1])
  }

  // Taking one key out of the listing.
  lemma {:induction false} WithoutKey(weight: seq<byte> -> nat, keys: seq<seq<byte>>, i: nat)
    requires i < |keys|
    ensures Sum(weight, keys) == Sum(weight, keys[..i] + keys[i+1..]) + weight(keys[i])
  {
    var init, last := keys[..|keys|-1], keys[|keys|-1];
    var rest := keys[..i] + keys[i+1..];
    if i == |keys| - 1 {
      assert rest == init;
    } else {
      WithoutKey(weight, init, i);
      assert rest[..|rest|-1] == init[..i] + init[i+1..] && rest[|rest|-1] == last;
    }
  }

  lemma {:induction false} SameWeights(v: seq<byte> -> nat, w: seq<byte> -> nat, keys: seq<seq<byte>>)
    requires forall k :: k in keys ==> v(k) == w(k)
    ensures Sum(v, keys) == Sum(w, keys)
  {
    if keys != [] {
      assert forall k :: k in keys[..|keys|-1] ==> k in keys;
      SameWeights(v, w, keys[..|keys|-1]);
    }
  }
}
