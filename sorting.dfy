/** `static/js/sorting.js`: the perks page keeps the perks it was rendered with
    in `window.ALL_PERKS` and re-sorts a copy of them in the browser when a
    column header is clicked. */
module ClientSorting {
  import opened Common

  // ---------------------------------------------------------------------------
  // The JavaScript values a perk object holds

  /** A property value as the comparator sees it. Nested objects
      (`membership`, `product`) and fractional numbers are not modelled. */
  datatype JsValue = Undefined | Null | Bool(b: bool) | Num(n: int) | Str(s: string)

  /** A perk as a plain object: property name to value. */
  type JsObject = map<string, JsValue>

  /** `o[name]`: a missing property reads as `undefined`. */
  function Get(o: JsObject, name: string): JsValue {
    if name in o then o[name] else Undefined
  }

  /** JavaScript truthiness of a property value. */
  predicate Truthy(v: JsValue) {
    match v
    case Undefined => false
    case Null => false
    case Bool(b) => b
    case Num(n) => n != 0
    case Str(s) => s != []
  }

  /** The largest time value a `Date` can hold, the one the comparator gives a
      perk without an expiry date. */
  const MaxTime: int := 8_640_000_000_000_000

  // ---------------------------------------------------------------------------
  // What `<` and `>` compare once `compare` has normalised a value

  /** A lower-cased string, a number (a `Date` compares by its time value) or
      `NaN`, which is neither below nor above anything. */
  datatype Key = Text(s: string) | Number(n: int) | NaN

  /** `new Date(v)` for a truthy value: a time value, or `NaN` outside the
      range a `Date` can hold. Date strings are not parsed. */
  function DateOf(v: JsValue): (k: Key)
    ensures k.Number? ==> -MaxTime <= k.n <= MaxTime
  {
    match v
    case Num(n) => if -MaxTime <= n <= MaxTime then Number(n) else NaN
    case Bool(b) => Number(if b then 1 else 0)
    case _ => NaN
  }

  /** Lines 38-47 of `compare` applied to one value: for the expiry column a
      missing date becomes the largest date; otherwise `null` and `undefined`
      become the empty string and strings are lower-cased. */
  function KeyOf(v: JsValue, expiry: bool): (k: Key)
    ensures expiry && !Truthy(v) ==> k == Number(MaxTime)
    ensures !expiry ==> (k == Text([]) <==> v.Null? || v.Undefined? || v == Str([]))
    ensures !expiry ==> (k.Text? <==> v.Null? || v.Undefined? || v.Str?)
    ensures !expiry && v.Str? ==> k == Text(Lower(v.s))
  {
    if expiry then
      if Truthy(v) then DateOf(v) else Number(MaxTime)
    else
      match v
      case Undefined => Text([])
      case Null => Text([])
      case Str(s) => Text(Lower(s))
      case Num(n) => Number(n)
      case Bool(b) => Number(if b then 1 else 0)
  }

  /** The number a key converts to when `<` compares it with a number: only
      the empty string converts among strings here. */
  function AsNumber(k: Key): Option<int> {
    match k
    case Number(n) => Some(n)
    case Text(s) => if s == [] then Some(0) else None
    case NaN => None
  }

  /** JavaScript's `x < y` on two keys: two strings compare code unit by code
      unit, anything else compares as numbers, `NaN` never. */
  predicate Less(x: Key, y: Key) {
    if x.Text? && y.Text? then StringLess(x.s, y.s)
    else AsNumber(x).Some? && AsNumber(y).Some? && AsNumber(x).value < AsNumber(y).value
  }

  lemma LessIrreflexive(k: Key)
    ensures !Less(k, k)
  {
    if k.Text? {
      StringLessIrreflexive(k.s);
    }
  }

  lemma LessAsymmetric(x: Key, y: Key)
    requires Less(x, y)
    ensures !Less(y, x)
  {
    if x.Text? && y.Text? {
      StringLessAsymmetric(x.s, y.s);
    }
  }

  /** Lines 49-51: -1, 1 or 0 by `<` and `>`, flipped unless the direction is
      `"asc"`. */
  function CompareKeys(k1: Key, k2: Key, direction: string): (r: int)
    ensures -1 <= r <= 1
    ensures r == 0 <==> !Less(k1, k2) && !Less(k2, k1)
    ensures direction == "asc" ==> (r < 0 <==> Less(k1, k2)) && (r > 0 <==> Less(k2, k1))
    ensures direction != "asc" ==> (r > 0 <==> Less(k1, k2)) && (r < 0 <==> Less(k2, k1))
  {
    if Less(k1, k2) then
      LessAsymmetric(k1, k2);
      if direction == "asc" then -1 else 1
    else if Less(k2, k1) then (if direction == "asc" then 1 else -1)
    else 0
  }

  // ---------------------------------------------------------------------------
  // The comparator, as written and corrected

  /** The `data-field` of the expiry column's header. */
  const ExpiryColumn: string := "expiry"
  /** The property the perk objects hold their expiry date under. */
  const ExpiryDateProperty: string := "expiryDate"

  /** `compare(a, b, field, direction)` as written: it reads `a[field]`, so the
      expiry column reads the property `expiry`. */
  function CompareAsWritten(a: JsObject, b: JsObject, field: string, direction: string): int {
    var expiry := field == ExpiryColumn;
    CompareKeys(KeyOf(Get(a, field), expiry), KeyOf(Get(b, field), expiry), direction)
  }

  /** The property a column's values live in: the perk objects hold their
      expiry date under `expiryDate`. */
  function SourceName(field: string): (name: string)
    ensures field != ExpiryColumn ==> name == field
  {
    if field == ExpiryColumn then ExpiryDateProperty else field
  }

  /** The key a perk has in a column. */
  function FieldKey(o: JsObject, field: string): Key {
    KeyOf(Get(o, SourceName(field)), field == ExpiryColumn)
  }

  /** `compare`, reading the expiry column from the property that holds it. */
  function Compare(a: JsObject, b: JsObject, field: string, direction: string): (r: int)
    ensures -1 <= r <= 1
    ensures field != ExpiryColumn ==> r == CompareAsWritten(a, b, field, direction)
  {
    CompareKeys(FieldKey(a, field), FieldKey(b, field), direction)
  }

  /** The corrected comparator: `compare` reading the expiry column from
      `expiryDate`. */
  function Comparator(field: string, direction: string): (JsObject, JsObject) -> int {
    (a, b) => Compare(a, b, field, direction)
  }

  /** A perk compares equal to itself. */
  lemma CompareSelf(a: JsObject, field: string, direction: string)
    ensures Compare(a, a, field, direction) == 0
  {
    LessIrreflexive(FieldKey(a, field));
  }

  /** Swapping the perks negates the result. */
  lemma CompareAntisymmetric(a: JsObject, b: JsObject, field: string, direction: string)
    ensures Compare(a, b, field, direction) == -Compare(b, a, field, direction)
  {
    var k1, k2 := FieldKey(a, field), FieldKey(b, field);
    if Less(k1, k2) {
      LessAsymmetric(k1, k2);
    } else if Less(k2, k1) {
      LessAsymmetric(k2, k1);
    }
  }

  /** Every direction other than `"asc"` is the ascending order reversed. */
  lemma CompareDirection(a: JsObject, b: JsObject, field: string, direction: string)
    requires direction != "asc"
    ensures Compare(a, b, field, direction) == -Compare(a, b, field, "asc")
  {
    var k1, k2 := FieldKey(a, field), FieldKey(b, field);
    if Less(k1, k2) {
      LessAsymmetric(k1, k2);
    }
  }

  /** Text columns ignore case: two strings that lower-case alike tie, and
      otherwise they are in natural order of their lower-cased forms. */
  lemma CompareIgnoresCase(a: JsObject, b: JsObject, field: string, s: string, t: string)
    requires field != ExpiryColumn && Get(a, field) == Str(s) && Get(b, field) == Str(t)
    ensures Compare(a, b, field, "asc") == CompareStrings(Lower(s), Lower(t))
    ensures Lower(s) == Lower(t) ==> Compare(a, b, field, "asc") == 0
  {
    if Lower(s) == Lower(t) {
      StringLessIrreflexive(Lower(s));
    } else if StringLess(Lower(s), Lower(t)) {
      StringLessAsymmetric(Lower(s), Lower(t));
    }
  }

  /** A missing value in a text column counts as the empty string, so it comes
      before every non-empty string in ascending order. */
  lemma MissingTextSortsFirst(a: JsObject, b: JsObject, field: string, t: string)
    requires field != ExpiryColumn && (Get(a, field).Null? || Get(a, field).Undefined?)
    requires Get(b, field) == Str(t) && t != []
    ensures Compare(a, b, field, "asc") == -1
    ensures Compare(b, a, field, "asc") == 1
  {
    assert |Lower(t)| == |t|;
  }

  /** A perk without an expiry date sorts after every perk whose expiry date
      is a valid date before the largest one, ascending, and before it
      descending. */
  lemma MissingExpirySortsLast(a: JsObject, b: JsObject, n: int, direction: string)
    requires !Truthy(Get(a, ExpiryDateProperty))
    requires Get(b, ExpiryDateProperty) == Num(n) && n != 0 && -MaxTime <= n < MaxTime
    ensures Compare(a, b, ExpiryColumn, "asc") == 1 && Compare(b, a, ExpiryColumn, "asc") == -1
    ensures direction != "asc" ==> Compare(a, b, ExpiryColumn, direction) == -1
  {
  }

  /** Two dated perks compare by their time values. */
  lemma CompareExpiryDates(a: JsObject, b: JsObject, m: int, n: int)
    requires Get(a, ExpiryDateProperty) == Num(m) && m != 0 && -MaxTime <= m <= MaxTime
    requires Get(b, ExpiryDateProperty) == Num(n) && n != 0 && -MaxTime <= n <= MaxTime
    ensures Compare(a, b, ExpiryColumn, "asc") == CompareInts(m, n)
  {
  }

  // ---------------------------------------------------------------------------
  // When the comparator is consistent

  /** Every perk has a key of the same kind in the column: all text or all
      numbers (no `NaN`, no mixing strings with numbers). */
  ghost predicate UniformColumn(xs: set<JsObject>, field: string) {
    || (forall o :: o in xs ==> FieldKey(o, field).Text?)
    || (forall o :: o in xs ==> FieldKey(o, field).Number?)
  }

  /** "Not after" on keys of one kind is transitive. */
  lemma NotLessTransitive(x: Key, y: Key, z: Key)
    requires (x.Text? && y.Text? && z.Text?) || (x.Number? && y.Number? && z.Number?)
    requires !Less(y, x) && !Less(z, y)
    ensures !Less(z, x)
  {
    if x.Text? && Less(z, x) {
      StringLessTotal(x.s, y.s);
      if x.s != y.s {
        StringLessTransitive(z.s, x.s, y.s);
      }
    }
  }

  /** On a column of one kind the comparator is a total preorder, so sorting
      by it is well defined. */
  lemma ComparatorPreorder(xs: set<JsObject>, field: string, direction: string)
    requires UniformColumn(xs, field)
    ensures PreorderOn(Comparator(field, direction), xs)
  {
    var cmp := Comparator(field, direction);
    forall a, b | a in xs && b in xs
      ensures cmp(a, b) <= 0 || cmp(b, a) <= 0
    {
      CompareAntisymmetric(a, b, field, direction);
    }
    forall a, b, c | a in xs && b in xs && c in xs && cmp(a, b) <= 0 && cmp(b, c) <= 0
      ensures cmp(a, c) <= 0
    {
      var ka, kb, kc := FieldKey(a, field), FieldKey(b, field), FieldKey(c, field);
      assert cmp(a, b) == CompareKeys(ka, kb, direction) && cmp(b, c) == CompareKeys(kb, kc, direction);
      assert cmp(a, c) == CompareKeys(ka, kc, direction);
      if direction == "asc" {
        NotLessTransitive(ka, kb, kc);
      } else {
        NotLessTransitive(kc, kb, ka);
      }
    }
  }

  // ---------------------------------------------------------------------------
  // The finding: the expiry column as written never reorders

  /** The comparator as written, as handed to `Array.prototype.sort`. */
  function AsWrittenComparator(field: string, direction: string): (JsObject, JsObject) -> int {
    (a, b) => CompareAsWritten(a, b, field, direction)
  }

  /** Perks shaped as the page delivers them, with the date under
      `expiryDate` and no `expiry` property. */
  ghost predicate NoExpiryProperty(s: seq<JsObject>) {
    forall o :: o in s ==> ExpiryColumn !in o
  }

  /** As written, two such perks tie in the expiry column: both read as the
      largest date. */
  lemma AsWrittenExpiryTies(a: JsObject, b: JsObject, direction: string)
    requires ExpiryColumn !in a && ExpiryColumn !in b
    ensures CompareAsWritten(a, b, ExpiryColumn, direction) == 0
  {
    LessIrreflexive(Number(MaxTime));
  }

  /** As written, sorting such perks by the expiry column returns them in the
      order they came, whatever their dates and the direction. */
  lemma AsWrittenExpirySortKeepsOrder(s: seq<JsObject>, direction: string)
    requires NoExpiryProperty(s)
    ensures SortBy(s, AsWrittenComparator(ExpiryColumn, direction)) == s
  {
    var cmp := AsWrittenComparator(ExpiryColumn, direction);
    forall k | 0 <= k < |s| - 1 ensures cmp(s[k], s[k + 1]) <= 0 {
      assert s[k] in s && s[k + 1] in s;
      AsWrittenExpiryTies(s[k], s[k + 1], direction);
    }
    SortByInOrder(s, cmp);
  }

  /** Two perks, the later-expiring one first: sorting ascending by expiry
      leaves them as they are as written. */
  lemma AsWrittenExpiryCounterexample()
    ensures var later, sooner := map[ExpiryDateProperty := Num(2)], map[ExpiryDateProperty := Num(1)];
      SortBy([later, sooner], AsWrittenComparator(ExpiryColumn, "asc")) == [later, sooner]
  {
    var later: JsObject, sooner: JsObject := map[ExpiryDateProperty := Num(2)], map[ExpiryDateProperty := Num(1)];
    AsWrittenExpirySortKeepsOrder([later, sooner], "asc");
  }

  /** The same two perks swap once the comparator reads `expiryDate`. */
  lemma CorrectedExpiryCounterexample()
    ensures var later, sooner := map[ExpiryDateProperty := Num(2)], map[ExpiryDateProperty := Num(1)];
      SortBy([later, sooner], Comparator(ExpiryColumn, "asc")) == [sooner, later]
  {
    var later: JsObject, sooner: JsObject := map[ExpiryDateProperty := Num(2)], map[ExpiryDateProperty := Num(1)];
    var cmp := Comparator(ExpiryColumn, "asc");
    assert Get(later, ExpiryDateProperty) == Num(2) && Get(sooner, ExpiryDateProperty) == Num(1);
    assert cmp(later, sooner) == 1;
    assert [later, sooner][1..] == [sooner];
    assert SortBy([sooner], cmp) == [sooner] by {
      assert [sooner][1..] == [];
    }
    assert InsertBy(later, [sooner], cmp) == [sooner, later] by {
      assert [sooner][1..] == [];
    }
  }

  // ---------------------------------------------------------------------------
  // Sorting a copy in place

  /** The inner loop of one insertion step: moves the elements of the sorted
      part `t = a[i + 1..]` that `x` follows one place to the left, and says
      where `x` belongs. */
  method ShiftPast<T>(a: array<T>, i: nat, x: T, ghost t: seq<T>, cmp: (T, T) -> int) returns (j: nat)
    requires i < a.Length && a[i + 1..] == t
    modifies a
    ensures i <= j < a.Length
    ensures forall m :: 0 <= m < i ==> a[m] == old(a[m])
    ensures forall m :: i <= m < j ==> a[m] == t[m - i]
    ensures forall m :: j < m < a.Length ==> a[m] == t[m - i - 1]
    ensures forall m :: 0 <= m < j - i ==> cmp(x, t[m]) > 0
    ensures j - i == |t| || cmp(x, t[j - i]) <= 0
  {
    j := i;
    assert forall m :: i < m < a.Length ==> a[m] == t[m - i - 1];
    while j + 1 < a.Length && cmp(x, a[j + 1]) > 0
      invariant i <= j < a.Length
      invariant forall m :: 0 <= m < i ==> a[m] == old(a[m])
      invariant forall m :: i <= m < j ==> a[m] == t[m - i]
      invariant forall m :: j < m < a.Length ==> a[m] == t[m - i - 1]
      invariant forall m :: 0 <= m < j - i ==> cmp(x, t[m]) > 0
    {
      a[j] := a[j + 1];
      j := j + 1;
    }
  }

  /** One step of the insertion sort: `a[i]` goes into the sorted part after
      it. */
  method InsertInto<T>(a: array<T>, i: nat, cmp: (T, T) -> int)
    requires i < a.Length
    modifies a
    ensures a[..i] == old(a[..i])
    ensures a[i..] == InsertBy(old(a[i]), old(a[i + 1..]), cmp)
  {
    ghost var t := a[i + 1..];
    var x := a[i];
    var j := ShiftPast(a, i, x, t, cmp);
    a[j] := x;
    assert a[..i] == old(a[..i]);
    assert a[i..] == InsertBy(x, t, cmp) by {
      Spliced(a[..], i, j, x, t);
      InsertByAt(x, t, j - i, cmp);
      assert a[i..] == a[..][i..];
    }
  }

  /** A sequence holding `t` from `i` on, with `x` written in at `j`, holds
      `t` with `x` spliced in at `j - i`. */
  lemma Spliced<T>(w: seq<T>, i: nat, j: nat, x: T, t: seq<T>)
    requires i <= j < |w| && |t| == |w| - i - 1 && w[j] == x
    requires forall m :: i <= m < j ==> w[m] == t[m - i]
    requires forall m :: j < m < |w| ==> w[m] == t[m - i - 1]
    ensures w[i..] == t[..j - i] + [x] + t[j - i..]
  {
    var r := t[..j - i] + [x] + t[j - i..];
    assert |w[i..]| == |r|;
    forall m | 0 <= m < |r| ensures w[i..][m] == r[m] {
      if m < j - i {
        assert r[m] == t[m];
      } else if m > j - i {
        assert r[m] == t[m - 1];
      }
    }
  }

  /** `Array.prototype.sort` with a comparator, done as an insertion sort from
      the right: the result is the stable sort `SortBy` of the old contents. */
  method SortInPlace<T>(a: array<T>, cmp: (T, T) -> int)
    modifies a
    ensures a[..] == SortBy(old(a[..]), cmp)
  {
    ghost var s := a[..];
    var i := a.Length;
    while i > 0
      invariant 0 <= i <= a.Length
      invariant a[..i] == s[..i]
      invariant a[i..] == SortBy(s[i..], cmp)
    {
      i := i - 1;
      ghost var before := a[..];
      assert before[i] == s[i] && before[i + 1..] == SortBy(s[i + 1..], cmp);
      InsertInto(a, i, cmp);
      SortBySuffix(s, i, cmp);
      assert a[..i] == before[..i];
    }
    assert s[0..] == s;
  }

  /** `sortAndRender(field, direction)`: a copy of the perks sorted by the
      column with `compare` as written; the perks themselves are left as they
      were. */
  method SortAndRender(all: array<JsObject>, field: string, direction: string) returns (perks: array<JsObject>)
    ensures fresh(perks)
    ensures perks[..] == SortBy(all[..], AsWrittenComparator(field, direction))
  {
    perks := new JsObject[all.Length](i requires 0 <= i < all.Length reads all => all[i]);
    assert perks[..] == all[..];
    SortInPlace(perks, AsWrittenComparator(field, direction));
  }

  /** The key a `null` `sort` parameter looks up: `a[null]` reads the property
      `"null"`. */
  function FieldName(sortParam: Option<string>): (f: string)
    ensures sortParam.Some? ==> f == sortParam.value
  {
    if sortParam.Some? then sortParam.value else "null"
  }

  /** `searchParams.get("direction") || "asc"`: a missing or empty parameter
      means ascending. */
  function DirectionOf(directionParam: Option<string>): (d: string)
    ensures d != []
    ensures directionParam.Some? && directionParam.value != [] ==> d == directionParam.value
  {
    if directionParam.Some? && directionParam.value != [] then directionParam.value else "asc"
  }

  /** The sort state of one page: the perks it was rendered with, the column
      and direction last sorted by, and the rows on display. */
  class SortControl {
    const all: array<JsObject>
    var currentField: Option<string>
    var currentDirection: string
    var rows: seq<JsObject>

    /** Page load: nothing sorted yet, ascending, the server's rows shown. */
    constructor (all: array<JsObject>, rows: seq<JsObject>)
      ensures this.all == all && this.rows == rows
      ensures currentField == None && currentDirection == "asc"
    {
      this.all := all;
      this.rows := rows;
      currentField := None;
      currentDirection := "asc";
    }

    /** A click on a column header link: a click on the column and direction
        already shown changes nothing; any other click re-renders the rows as
        the perks sorted by that column and direction. */
    method Click(sortParam: Option<string>, directionParam: Option<string>)
      modifies this`currentField, this`currentDirection, this`rows
      ensures currentField == sortParam && currentDirection == DirectionOf(directionParam)
      ensures sortParam == old(currentField) && DirectionOf(directionParam) == old(currentDirection) ==>
        rows == old(rows)
      ensures sortParam != old(currentField) || DirectionOf(directionParam) != old(currentDirection) ==>
        rows == SortBy(all[..], AsWrittenComparator(FieldName(sortParam), DirectionOf(directionParam)))
    {
      var direction := DirectionOf(directionParam);
      if sortParam == currentField && direction == currentDirection {
        return;
      }
      currentField := sortParam;
      currentDirection := direction;
      var perks := SortAndRender(all, FieldName(sortParam), direction);
      rows := perks[..];
    }
  }

  /** Off the expiry column the comparator as written is the corrected one,
      so on a column of one kind it is a total preorder as well. */
  lemma AsWrittenPreorder(xs: set<JsObject>, field: string, direction: string)
    requires field != ExpiryColumn && UniformColumn(xs, field)
    ensures PreorderOn(AsWrittenComparator(field, direction), xs)
  {
    var cmp, fixed := AsWrittenComparator(field, direction), Comparator(field, direction);
    ComparatorPreorder(xs, field, direction);
    forall a, b | a in xs && b in xs ensures cmp(a, b) == fixed(a, b) {
    }
  }

  /** The rows a click shows: a permutation of the perks; on a column of one
      kind other than expiry they are in comparator order, and on the expiry
      column, for perks as the page delivers them, they are the perks in the
      order they came. */
  lemma SortedRows(all: seq<JsObject>, field: string, direction: string)
    requires field != ExpiryColumn ==> UniformColumn((set o | o in all), field)
    ensures var r := SortBy(all, AsWrittenComparator(field, direction));
      && multiset(r) == multiset(all)
      && (field != ExpiryColumn ==>
            forall i, j :: 0 <= i < j < |r| ==> CompareAsWritten(r[i], r[j], field, direction) <= 0)
      && (field == ExpiryColumn && NoExpiryProperty(all) ==> r == all)
  {
    var cmp := AsWrittenComparator(field, direction);
    SortByPermutes(all, cmp);
    if field != ExpiryColumn {
      AsWrittenPreorder((set o | o in all), field, direction);
      SortBySorted(all, cmp);
      var r := SortBy(all, cmp);
      forall i, j | 0 <= i < j < |r| ensures CompareAsWritten(r[i], r[j], field, direction) <= 0 {
        assert cmp(r[i], r[j]) <= 0;
      }
    } else if NoExpiryProperty(all) {
      AsWrittenExpirySortKeepsOrder(all, direction);
    }
  }

  /** With the corrected comparator, on any column of one kind, the expiry
      column included, the rows are a permutation of the perks in comparator
      order. */
  lemma CorrectedSortedRows(all: seq<JsObject>, field: string, direction: string)
    requires UniformColumn((set o | o in all), field)
    ensures var r := SortBy(all, Comparator(field, direction));
      && multiset(r) == multiset(all)
      && forall i, j :: 0 <= i < j < |r| ==> Compare(r[i], r[j], field, direction) <= 0
  {
    var cmp := Comparator(field, direction);
    ComparatorPreorder((set o | o in all), field, direction);
    SortBySorted(all, cmp);
    SortByPermutes(all, cmp);
    var r := SortBy(all, cmp);
    forall i, j | 0 <= i < j < |r| ensures Compare(r[i], r[j], field, direction) <= 0 {
      assert cmp(r[i], r[j]) <= 0;
    }
  }
}
