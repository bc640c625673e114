/**
 * The form state of src/app/page.js (lines 98-128) and `handleInputChange`
 * (lines 133-149), which replaces one field of the record: a top-level field
 * named plainly, or one entry of the `spesifikasi` object named by the path
 * `"spesifikasi.<key>"`. The `spesifikasi` object is the list of its
 * entries in JavaScript's enumeration order: keys that are array indices
 * first, in ascending numeric order, then the other keys in the order they
 * were added.
 */
module OfferForm {
  import opened Wrappers
  import opened JsText

  type SpecEntries = seq<(string, string)>

  datatype OfferRecord = OfferRecord(
    kota: string,
    tanggal: string,
    kepada: string,
    perihal: string,
    penawaranAtas: string,
    harga: string,
    hargaTerbilang: string,
    penandatangan: string,
    spesifikasi: SpecEntries)

  /** The top-level text fields the form edits. */
  datatype TopField =
    Kota | Tanggal | Kepada | Perihal | PenawaranAtas | Harga | HargaTerbilang | Penandatangan

  function FieldName(f: TopField): string {
    match f
    case Kota => "kota"
    case Tanggal => "tanggal"
    case Kepada => "kepada"
    case Perihal => "perihal"
    case PenawaranAtas => "penawaranAtas"
    case Harga => "harga"
    case HargaTerbilang => "hargaTerbilang"
    case Penandatangan => "penandatangan"
  }

  /** The top-level field a property name denotes, if any. */
  function FieldNamed(name: string): (f: Option<TopField>)
    ensures f.Some? ==> FieldName(f.value) == name
    ensures forall g :: FieldName(g) == name ==> f == Some(g)
  {
    if name == "kota" then Some(Kota)
    else if name == "tanggal" then Some(Tanggal)
    else if name == "kepada" then Some(Kepada)
    else if name == "perihal" then Some(Perihal)
    else if name == "penawaranAtas" then Some(PenawaranAtas)
    else if name == "harga" then Some(Harga)
    else if name == "hargaTerbilang" then Some(HargaTerbilang)
    else if name == "penandatangan" then Some(Penandatangan)
    else None
  }

  function Get(r: OfferRecord, f: TopField): string {
    match f
    case Kota => r.kota
    case Tanggal => r.tanggal
    case Kepada => r.kepada
    case Perihal => r.perihal
    case PenawaranAtas => r.penawaranAtas
    case Harga => r.harga
    case HargaTerbilang => r.hargaTerbilang
    case Penandatangan => r.penandatangan
  }

  /** `{...prev, [field]: value}` for a top-level text field. */
  function SetField(r: OfferRecord, f: TopField, v: string): (r': OfferRecord)
    ensures Get(r', f) == v
    ensures forall g :: g != f ==> Get(r', g) == Get(r, g)
    ensures r'.spesifikasi == r.spesifikasi
  {
    match f
    case Kota => r.(kota := v)
    case Tanggal => r.(tanggal := v)
    case Kepada => r.(kepada := v)
    case Perihal => r.(perihal := v)
    case PenawaranAtas => r.(penawaranAtas := v)
    case Harga => r.(harga := v)
    case HargaTerbilang => r.(hargaTerbilang := v)
    case Penandatangan => r.(penandatangan := v)
  }

  // ---- The spesifikasi object as an ordered list of entries ----

  function Keys(spec: SpecEntries): (ks: seq<string>)
    ensures |ks| == |spec|
    ensures forall i :: 0 <= i < |spec| ==> ks[i] == spec[i].0
  {
    if spec == [] then [] else [spec[0].0] + Keys(spec[1..])
  }

  predicate UniqueKeys(spec: SpecEntries) {
    forall i, j :: 0 <= i < j < |spec| ==> spec[i].0 != spec[j].0
  }

  /** `spec[k]`: the value under key k, or undefined. */
  function Lookup(spec: SpecEntries, k: string): (v: Option<string>)
    ensures v.Some? <==> k in Keys(spec)
    ensures v.Some? ==> exists i :: 0 <= i < |spec| && spec[i] == (k, v.value)
  {
    if spec == [] then None
    else if spec[0].0 == k then Some(spec[0].1)
    else Lookup(spec[1..], k)
  }

  /** JavaScript's enumeration order of an object's own string keys: the
      array indices come first, in ascending numeric order, and every other
      key follows them. */
  predicate EnumerationOrder(spec: SpecEntries) {
    forall i, j :: 0 <= i < j < |spec| && IsArrayIndex(spec[j].0) ==>
      IsArrayIndex(spec[i].0) && DigitsValue(spec[i].0) < DigitsValue(spec[j].0)
  }

  /** The entries are those of a JavaScript object: no key twice, and the
      keys in enumeration order. */
  predicate ObjectEntries(spec: SpecEntries) {
    UniqueKeys(spec) && EnumerationOrder(spec)
  }

  /** A key x enumerated before every entry of spec keeps that order. */
  predicate Precedes(x: string, spec: SpecEntries) {
    forall j :: 0 <= j < |spec| && IsArrayIndex(spec[j].0) ==>
      IsArrayIndex(x) && DigitsValue(x) < DigitsValue(spec[j].0)
  }

  /** A new array-index key k is enumerated before an existing key j. */
  predicate IndexBefore(k: string, j: string)
    requires IsArrayIndex(k)
  {
    !IsArrayIndex(j) || DigitsValue(k) < DigitsValue(j)
  }

  /** A new key k is enumerated before every entry of spec. */
  predicate GoesFirst(spec: SpecEntries, k: string)
    requires spec != []
  {
    IsArrayIndex(k) && IndexBefore(k, spec[0].0) && k !in Keys(spec[1..])
  }

  /** `{...spec, [k]: v}`: an existing key keeps its place and takes the new
      value; a new array index goes before the first key it is enumerated
      before, and any other new key goes last. */
  function SetEntry(spec: SpecEntries, k: string, v: string): (r: SpecEntries)
    ensures |r| == |spec| || |r| == |spec| + 1
  {
    if spec == [] then [(k, v)]
    else if spec[0].0 == k then [(k, v)] + spec[1..]
    else if GoesFirst(spec, k) then [(k, v)] + spec
    else [spec[0]] + SetEntry(spec[1..], k, v)
  }

  /** Where a new key k is enumerated among the entries of spec. */
  function Slot(spec: SpecEntries, k: string): (s: nat)
    ensures s <= |spec|
  {
    if spec == [] then 0
    else if IsArrayIndex(k) && IndexBefore(k, spec[0].0) then 0
    else 1 + Slot(spec[1..], k)
  }

  /** The slot of a key that is not an array index is the end; the slot of
      an array index follows every key it is not enumerated before, and the
      key at the slot is one it is enumerated before. */
  lemma {:induction false} SlotPlace(spec: SpecEntries, k: string)
    ensures !IsArrayIndex(k) ==> Slot(spec, k) == |spec|
    ensures IsArrayIndex(k) ==> forall i :: 0 <= i < Slot(spec, k) ==> !IndexBefore(k, spec[i].0)
    ensures IsArrayIndex(k) && Slot(spec, k) < |spec| ==> IndexBefore(k, spec[Slot(spec, k)].0)
  {
    if spec != [] && !(IsArrayIndex(k) && IndexBefore(k, spec[0].0)) {
      SlotPlace(spec[1..], k);
      assert forall i :: 1 <= i <= |spec[1..]| ==> spec[i] == spec[1..][i - 1];
    }
  }

  /** Setting a key that is present keeps every key in its place. */
  lemma {:induction false} SetEntryExisting(spec: SpecEntries, k: string, v: string)
    requires k in Keys(spec)
    ensures Keys(SetEntry(spec, k, v)) == Keys(spec)
  {
    if spec[0].0 != k {
      assert Keys(spec) == [spec[0].0] + Keys(spec[1..]);
      SetEntryExisting(spec[1..], k, v);
      assert Keys(SetEntry(spec, k, v)) == [spec[0].0] + Keys(SetEntry(spec[1..], k, v));
    }
  }

  /** Setting a new key inserts one entry at its slot; a key that is not an
      array index is appended. */
  lemma {:induction false} SetEntryNew(spec: SpecEntries, k: string, v: string)
    requires k !in Keys(spec)
    ensures var s := Slot(spec, k);
      SetEntry(spec, k, v) == spec[..s] + [(k, v)] + spec[s..]
    ensures !IsArrayIndex(k) ==> SetEntry(spec, k, v) == spec + [(k, v)]
  {
    InsertAtSlot(spec, k, v);
    SlotPlace(spec, k);
    if !IsArrayIndex(k) {
      assert spec[..|spec|] == spec && spec[|spec|..] == [];
    }
  }

  lemma {:induction false} InsertAtSlot(spec: SpecEntries, k: string, v: string)
    requires k !in Keys(spec)
    ensures var s := Slot(spec, k);
      SetEntry(spec, k, v) == spec[..s] + [(k, v)] + spec[s..]
  {
    if spec != [] {
      var t := spec[1..];
      assert Keys(spec) == [spec[0].0] + Keys(t);
      if GoesFirst(spec, k) {
        assert Slot(spec, k) == 0;
        assert spec[..0] == [] && spec[0..] == spec;
      } else {
        var m := Slot(t, k);
        assert Slot(spec, k) == m + 1;
        assert SetEntry(spec, k, v) == [spec[0]] + SetEntry(t, k, v);
        InsertAtSlot(t, k, v);
        assert spec == [spec[0]] + t;
        ConsInsert(spec[0], t, m, (k, v));
        assert SetEntry(spec, k, v) == ([spec[0]] + t)[..m + 1] + [(k, v)] + ([spec[0]] + t)[m + 1..];
      }
    }
  }

  lemma ConsInsert<T>(x: T, t: seq<T>, m: nat, e: T)
    requires m <= |t|
    ensures [x] + (t[..m] + [e] + t[m..]) == ([x] + t)[..m + 1] + [e] + ([x] + t)[m + 1..]
  {
    assert ([x] + t)[..m + 1] == [x] + t[..m];
    assert ([x] + t)[m + 1..] == t[m..];
  }

  /** After setting a key, looking it up gives the new value and every other
      key keeps its value. */
  lemma {:induction false} SetEntryLookup(spec: SpecEntries, k: string, v: string)
    ensures Lookup(SetEntry(spec, k, v), k) == Some(v)
    ensures forall k' :: k' != k ==> Lookup(SetEntry(spec, k, v), k') == Lookup(spec, k')
  {
    if spec != [] && spec[0].0 != k {
      var r := SetEntry(spec, k, v);
      if GoesFirst(spec, k) {
        assert r[1..] == spec;
      } else {
        SetEntryLookup(spec[1..], k, v);
        assert r[1..] == SetEntry(spec[1..], k, v);
      }
    }
  }

  /** Setting a key never duplicates one. */
  lemma {:induction false} SetEntryUnique(spec: SpecEntries, k: string, v: string)
    requires UniqueKeys(spec)
    ensures UniqueKeys(SetEntry(spec, k, v))
  {
    var r := SetEntry(spec, k, v);
    if spec == [] {
    } else if spec[0].0 == k {
      assert forall i :: 0 <= i < |r| ==> r[i].0 == spec[i].0;
    } else if GoesFirst(spec, k) {
      assert Keys(spec) == [spec[0].0] + Keys(spec[1..]);
      UniqueCons((k, v), spec);
    } else {
      var t := spec[1..];
      assert UniqueKeys(t);
      SetEntryUnique(t, k, v);
      SetEntryLookup(t, k, v);
      assert spec[0].0 !in Keys(t) by {
        forall j | 0 <= j < |t| ensures Keys(t)[j] != spec[0].0 {
          assert t[j] == spec[j + 1];
        }
      }
      assert Lookup(SetEntry(t, k, v), spec[0].0) == None;
      UniqueCons(spec[0], SetEntry(t, k, v));
    }
  }

  lemma UniqueCons(x: (string, string), t: SpecEntries)
    requires UniqueKeys(t) && x.0 !in Keys(t)
    ensures UniqueKeys([x] + t)
  {
    var r := [x] + t;
    forall i, j | 0 <= i < j < |r| ensures r[i].0 != r[j].0 {
      assert r[j] == t[j - 1] && Keys(t)[j - 1] == t[j - 1].0;
      if i > 0 {
        assert r[i] == t[i - 1];
      }
    }
  }

  lemma OrderCons(x: (string, string), t: SpecEntries)
    requires EnumerationOrder(t) && Precedes(x.0, t)
    ensures EnumerationOrder([x] + t)
  {
    var r := [x] + t;
    forall i, j | 0 <= i < j < |r| && IsArrayIndex(r[j].0)
      ensures IsArrayIndex(r[i].0) && DigitsValue(r[i].0) < DigitsValue(r[j].0)
    {
      assert r[j] == t[j - 1];
      if i > 0 {
        assert r[i] == t[i - 1];
      }
    }
  }

  lemma OrderTail(spec: SpecEntries)
    requires EnumerationOrder(spec) && spec != []
    ensures EnumerationOrder(spec[1..]) && Precedes(spec[0].0, spec[1..])
  {
    var t := spec[1..];
    assert forall j :: 0 <= j < |t| ==> t[j] == spec[j + 1];
  }

  /** A key that precedes every entry, and the key being set, precedes every
      entry afterwards. */
  lemma {:induction false} PrecedesSetEntry(x: string, spec: SpecEntries, k: string, v: string)
    requires Precedes(x, spec)
    requires IsArrayIndex(k) ==> IsArrayIndex(x) && DigitsValue(x) < DigitsValue(k)
    ensures Precedes(x, SetEntry(spec, k, v))
  {
    var r := SetEntry(spec, k, v);
    if spec == [] {
    } else if spec[0].0 == k {
      assert forall j :: 0 <= j < |r| ==> r[j].0 == spec[j].0;
    } else if GoesFirst(spec, k) {
      assert forall j :: 1 <= j < |r| ==> r[j] == spec[j - 1];
    } else {
      var t := spec[1..];
      assert forall j :: 0 <= j < |t| ==> t[j] == spec[j + 1];
      PrecedesSetEntry(x, t, k, v);
      assert forall j :: 1 <= j < |r| ==> r[j] == SetEntry(t, k, v)[j - 1];
    }
  }

  /** Setting a key keeps the entries in JavaScript's enumeration order. */
  lemma {:induction false} SetEntryKeepsOrder(spec: SpecEntries, k: string, v: string)
    requires EnumerationOrder(spec)
    ensures EnumerationOrder(SetEntry(spec, k, v))
  {
    var r := SetEntry(spec, k, v);
    if spec == [] {
    } else if spec[0].0 == k {
      assert forall i :: 0 <= i < |r| ==> r[i].0 == spec[i].0;
    } else if GoesFirst(spec, k) {
      assert Precedes(k, spec) by {
        forall j | 0 <= j < |spec| && IsArrayIndex(spec[j].0)
          ensures DigitsValue(k) < DigitsValue(spec[j].0)
        {
          if j > 0 {
            assert IsArrayIndex(spec[0].0) && DigitsValue(spec[0].0) < DigitsValue(spec[j].0);
          }
        }
      }
      OrderCons((k, v), spec);
    } else {
      var t := spec[1..];
      OrderTail(spec);
      SetEntryKeepsOrder(t, k, v);
      if IsArrayIndex(k) {
        HeadBelowKey(spec, k);
      }
      PrecedesSetEntry(spec[0].0, t, k, v);
      OrderCons(spec[0], SetEntry(t, k, v));
    }
  }

  /** When a new array index k is not placed before the first entry, that
      entry is an array index below k. */
  lemma HeadBelowKey(spec: SpecEntries, k: string)
    requires EnumerationOrder(spec) && spec != [] && spec[0].0 != k && IsArrayIndex(k)
    requires !GoesFirst(spec, k)
    ensures IsArrayIndex(spec[0].0) && DigitsValue(spec[0].0) < DigitsValue(k)
  {
    var t := spec[1..];
    if k in Keys(t) {
      var j :| 0 <= j < |t| && Keys(t)[j] == k;
      assert spec[j + 1].0 == k;
    } else if DigitsValue(spec[0].0) == DigitsValue(k) {
      ArrayIndexInjective(spec[0].0, k);
    }
  }

  /** No key of the initial specification is an array index, since each starts with a letter. */
  lemma DefaultSpecOrder()
    ensures EnumerationOrder(DefaultSpec)
  {
    forall j | 0 <= j < |DefaultSpec| ensures !IsArrayIndex(DefaultSpec[j].0) {
      assert IsAsciiLower(DefaultSpec[j].0[0]);
    }
  }

  // ---- Field paths ----

  /** The text before the first `.` (all of it when there is none). */
  function BeforeDot(s: string): (r: string)
    ensures |r| <= |s| && r == s[..|r|] && '.' !in r
    ensures |r| < |s| ==> s[|r|] == '.'
  {
    if s == [] || s[0] == '.' then [] else [s[0]] + BeforeDot(s[1..])
  }

  /** The text after the first `.`. */
  function AfterDot(s: string): (r: string)
    requires '.' in s
    ensures |BeforeDot(s)| < |s| && r == s[|BeforeDot(s)| + 1..]
  {
    s[|BeforeDot(s)| + 1..]
  }

  /** `const [parent, child] = field.split(".")`: the first two segments. */
  function Parent(field: string): string {
    BeforeDot(field)
  }

  function Child(field: string): string
    requires '.' in field
  {
    BeforeDot(AfterDot(field))
  }

  const SpecParent := "spesifikasi"

  /** The field arguments the form passes: a top-level field name, or a path
      into the `spesifikasi` object. */
  predicate IsFormField(field: string) {
    if '.' in field then Parent(field) == SpecParent else FieldNamed(field).Some?
  }

  /** The path the specification inputs pass for a key without a dot (src/app/page.js:372)
      splits back into that key. */
  lemma SpecPathSelectsKey(key: string)
    requires '.' !in key
    ensures var field := SpecParent + "." + key;
            '.' in field && IsFormField(field) && Child(field) == key
  {
    var field := SpecParent + "." + key;
    assert field[11] == '.';
    var b := BeforeDot(field);
    assert b == SpecParent;
    assert AfterDot(field) == key;
    assert BeforeDot(key) == key;
  }

  /** `handleInputChange(field, value)` as the state update it schedules. */
  function HandleInputChange(r: OfferRecord, field: string, value: string): (r': OfferRecord)
    requires IsFormField(field)
    ensures '.' !in field ==> r'.spesifikasi == r.spesifikasi
    ensures '.' in field ==> forall g :: Get(r', g) == Get(r, g)
  {
    if '.' in field then
      r.(spesifikasi := SetEntry(r.spesifikasi, Child(field), value))
    else
      SetField(r, FieldNamed(field).value, value)
  }

  /** A plain field name sets that top-level field and nothing else. */
  lemma InputChangeTopLevel(r: OfferRecord, f: TopField, value: string)
    ensures '.' !in FieldName(f) && IsFormField(FieldName(f))
    ensures var r' := HandleInputChange(r, FieldName(f), value);
      && Get(r', f) == value
      && (forall g :: g != f ==> Get(r', g) == Get(r, g))
      && r'.spesifikasi == r.spesifikasi
  {
    assert FieldNamed(FieldName(f)) == Some(f);
  }

  /** A `spesifikasi.<key>` path sets that entry and nothing else: every
      top-level field and every other entry keeps its value, an existing key
      keeps its place, a new key is inserted at its slot in enumeration
      order (last unless it is an array index), and neither the order nor
      the uniqueness of the keys is lost. */
  lemma InputChangeSpec(r: OfferRecord, field: string, value: string)
    requires '.' in field && Parent(field) == SpecParent
    ensures IsFormField(field)
    ensures var r', k := HandleInputChange(r, field, value), Child(field);
      && (forall g :: Get(r', g) == Get(r, g))
      && Lookup(r'.spesifikasi, k) == Some(value)
      && (forall k' :: k' != k ==> Lookup(r'.spesifikasi, k') == Lookup(r.spesifikasi, k'))
      && (k in Keys(r.spesifikasi) ==> Keys(r'.spesifikasi) == Keys(r.spesifikasi))
      && (k !in Keys(r.spesifikasi) ==> var s := Slot(r.spesifikasi, k);
            r'.spesifikasi == r.spesifikasi[..s] + [(k, value)] + r.spesifikasi[s..])
      && (k !in Keys(r.spesifikasi) && !IsArrayIndex(k) ==>
            r'.spesifikasi == r.spesifikasi + [(k, value)])
      && (UniqueKeys(r.spesifikasi) ==> UniqueKeys(r'.spesifikasi))
      && (EnumerationOrder(r.spesifikasi) ==> EnumerationOrder(r'.spesifikasi))
  {
    var k := Child(field);
    if k in Keys(r.spesifikasi) {
      SetEntryExisting(r.spesifikasi, k, value);
    } else {
      SetEntryNew(r.spesifikasi, k, value);
    }
    SetEntryLookup(r.spesifikasi, k, value);
    if UniqueKeys(r.spesifikasi) {
      SetEntryUnique(r.spesifikasi, k, value);
    }
    if EnumerationOrder(r.spesifikasi) {
      SetEntryKeepsOrder(r.spesifikasi, k, value);
    }
  }

  /** Every change the form makes keeps the `spesifikasi` entries those of an object. */
  lemma InputChangeKeepsObject(r: OfferRecord, field: string, value: string)
    requires IsFormField(field) && ObjectEntries(r.spesifikasi)
    ensures ObjectEntries(HandleInputChange(r, field, value).spesifikasi)
  {
    if '.' in field {
      InputChangeSpec(r, field, value);
    }
  }

  // ---- The initial state ----

  const DefaultSpec: SpecEntries := [
    ("modelBody", "JB5"),
    ("rangka", "Pipa Baja"),
    ("kacaDepan", "Laminated 2pcs"),
    ("kacaSamping", "Tempered Rayban Geser Bawah"),
    ("kacaBelakang", "Tempered Rayban"),
    ("pintuDepan", "Standar"),
    ("pintuBelakang", "Lipat"),
    ("lantai", "Plat Bordes"),
    ("bangku", "Standar Karoseri"),
    ("bangkuPenumpang", "17 Seats"),
    ("lampuDepan", "JB5"),
    ("lampuBelakang", "JB5"),
    ("wiper", "Mercy"),
    ("interior", "Cat + ACP"),
    ("plafon", "Dum Depan ABS"),
    ("bagasiPlafon", "Profile"),
    ("audioVisual", "DVD, TV, Power, Speaker"),
    ("wildop", "SR Chrome"),
    ("cat", "Sesuai Permintaan")
  ]

  /** The length and the first letter of a key; they tell the initial keys apart. */
  function KeyTag(k: string): int {
    if k == [] then 0 else |k| * 128 + k[0] as int
  }

  const DefaultKeyTags: seq<int> :=
    [1261, 882, 1259, 1515, 1643, 1392, 1776, 876, 866, 2018, 1388, 1772, 759, 1129, 880, 1634, 1505, 887, 483]

  lemma DefaultKeyTagsOf()
    ensures |DefaultKeyTags| == |DefaultSpec|
    ensures forall i :: 0 <= i < |DefaultSpec| ==> KeyTag(DefaultSpec[i].0) == DefaultKeyTags[i]
  {
  }

  /** No key occurs twice in the initial specification, since no two of its
      keys have both the same length and the same first letter. */
  lemma DefaultSpecUnique()
    ensures UniqueKeys(DefaultSpec)
  {
    DefaultKeyTagsOf();
    DefaultKeyTagsDistinct();
    UniqueByTags(DefaultSpec, DefaultKeyTags);
  }

  lemma DefaultKeyTagsDistinct()
    ensures forall i, j :: 0 <= i < j < |DefaultKeyTags| ==> DefaultKeyTags[i] != DefaultKeyTags[j]
  {
  }

  /** Keys whose tags are pairwise distinct are pairwise distinct. */
  lemma UniqueByTags(spec: SpecEntries, tags: seq<int>)
    requires |tags| == |spec| && forall i :: 0 <= i < |spec| ==> KeyTag(spec[i].0) == tags[i]
    requires forall i, j :: 0 <= i < j < |tags| ==> tags[i] != tags[j]
    ensures UniqueKeys(spec)
  {
    forall i, j | 0 <= i < j < |spec| ensures spec[i].0 != spec[j].0 {
      assert tags[i] != tags[j];
    }
  }

  /** The record the page starts with; `tanggal` is today's date in the
      `id-ID` long format, which comes from the clock. */
  function DefaultRecord(tanggal: string): (r: OfferRecord)
    ensures r.tanggal == tanggal && r.harga == "138.000.000"
    ensures r.spesifikasi == DefaultSpec && ObjectEntries(r.spesifikasi)
  {
    DefaultSpecOrder();
    DefaultSpecUnique();
    OfferRecord(
      "Yogyakarta", tanggal, "Bapak ......", "Penawaran Pembuatan Karoseri",
      "pembuatan karoseri body mikrobus", "138.000.000",
      "Seratus Tiga Puluh Delapan Juta Rupiah", "Anton Gunanjati", DefaultSpec)
  }

  /** On two of the default entries: a new entry under an array-index key
      such as `spesifikasi.0` is enumerated before them, one under a named
      key after them. */
  lemma NewKeyExamples()
    ensures var spec := [("modelBody", "JB5"), ("rangka", "Pipa Baja")];
      && SetEntry(spec, "0", "Kaca Film") == [("0", "Kaca Film")] + spec
      && SetEntry(spec, "warna", "Putih") == spec + [("warna", "Putih")]
  {
    var spec := [("modelBody", "JB5"), ("rangka", "Pipa Baja")];
    ArrayIndexExamples();
    assert spec[1..] == [("rangka", "Pipa Baja")];
    assert Keys(spec[1..]) == ["rangka"];
    assert !IsArrayIndex("modelBody") by { assert !IsDigit("modelBody"[0]); }
    assert GoesFirst(spec, "0");
    assert !IsArrayIndex("warna") by { assert !IsDigit("warna"[0]); }
    assert Keys(spec) == ["modelBody", "rangka"];
    SetEntryNew(spec, "warna", "Putih");
  }
}
