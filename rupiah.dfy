/**
 * `formatRupiah` (src/app/page.js): `angka.toString().replace(/\B(?=(\d{3})+(?!\d))/g, ".")`.
 * The regular expression matches the empty string at every position that is
 * not a word boundary and is followed by a whole number of three-digit groups
 * ending the run of digits there; a `.` is inserted at each such position.
 */
module Rupiah {
  import opened JsText

  /** Length of the run of digits starting at position p. */
  function DigitRun(s: string, p: nat): (n: nat)
    requires p <= |s|
    ensures p + n <= |s|
    ensures forall j :: p <= j < p + n ==> IsDigit(s[j])
    ensures p + n == |s| || !IsDigit(s[p + n])
    decreases |s| - p
  {
    if p < |s| && IsDigit(s[p]) then 1 + DigitRun(s, p + 1) else 0
  }

  /** `\B` at position p: both neighbours are word characters, or neither is
      (the ends of the string count as non-word). */
  predicate NotWordBoundary(s: string, p: nat)
    requires p <= |s|
  {
    (p > 0 && IsWordChar(s[p - 1])) == (p < |s| && IsWordChar(s[p]))
  }

  predicate DigitsIn(s: string, p: nat, e: nat)
    requires p <= e <= |s|
  {
    forall j :: p <= j < e ==> IsDigit(s[j])
  }

  /** `(?=(\d{3})+(?!\d))` at position p, as the regular expression states it:
      some positive multiple of three digits follows, and no digit after them. */
  predicate GroupsAhead(s: string, p: nat)
    requires p <= |s|
  {
    exists e :: p < e <= |s| && (e - p) % 3 == 0 && DigitsIn(s, p, e) && (e == |s| || !IsDigit(s[e]))
  }

  /** Where the replacement inserts a separator. */
  predicate SeparatorAt(s: string, p: nat)
    requires p <= |s|
  {
    NotWordBoundary(s, p) && DigitRun(s, p) > 0 && DigitRun(s, p) % 3 == 0
  }

  /** A run of digits ending before a non-digit, or at the end, is the digit run there. */
  lemma DigitRunEndsAt(s: string, p: nat, e: nat)
    requires p <= e <= |s| && DigitsIn(s, p, e) && (e == |s| || !IsDigit(s[e]))
    ensures DigitRun(s, p) == e - p
  {
  }

  /** The look-ahead holds exactly when the digit run at p is a positive multiple of three. */
  lemma GroupsAheadIff(s: string, p: nat)
    requires p <= |s|
    ensures GroupsAhead(s, p) <==> DigitRun(s, p) > 0 && DigitRun(s, p) % 3 == 0
  {
    var n := DigitRun(s, p);
    if n > 0 && n % 3 == 0 {
      assert DigitsIn(s, p, p + n);
    }
    if GroupsAhead(s, p) {
      var e :| p < e <= |s| && (e - p) % 3 == 0 && DigitsIn(s, p, e) && (e == |s| || !IsDigit(s[e]));
      DigitRunEndsAt(s, p, e);
    }
  }

  /** The output for positions i.. of s: a separator if one belongs before
      position i, then the character there, then the rest. */
  function GroupFrom(s: string, i: nat): string
    requires i <= |s|
    decreases |s| - i
  {
    (if SeparatorAt(s, i) then "." else "")
    + (if i < |s| then [s[i]] + GroupFrom(s, i + 1) else "")
  }

  /** r is a with some `.` characters inserted: each character of r either
      is an inserted `.` or is the next character of a, and all of a is used. */
  predicate DotsInserted(a: string, r: string)
    decreases |r|
  {
    if r == [] then a == [] else
      (r[0] == '.' && DotsInserted(a, r[1..]))
      || (a != [] && r[0] == a[0] && DotsInserted(a[1..], r[1..]))
  }

  /** `formatRupiah(angka)`: `.` is inserted at every place the pattern
      matches, and nothing is deleted, moved or changed. */
  function FormatRupiah(angka: string): (r: string)
    ensures |angka| <= |r|
    ensures DotsInserted(angka, r)
    ensures RemoveDots(r) == RemoveDots(angka)
  {
    GroupFromDotsInserted(angka, 0);
    GroupFromRemoveDots(angka, 0);
    GroupFromLonger(angka, 0);
    assert angka[0..] == angka;
    GroupFrom(angka, 0)
  }

  /** Every suffix of the output is the matching suffix of the input with
      separators inserted. */
  lemma {:induction false} GroupFromDotsInserted(s: string, i: nat)
    requires i <= |s|
    ensures DotsInserted(s[i..], GroupFrom(s, i))
    decreases |s| - i
  {
    if i < |s| {
      var g := GroupFrom(s, i + 1);
      GroupFromDotsInserted(s, i + 1);
      assert s[i..][0] == s[i] && s[i..][1..] == s[i + 1..];
      var body := [s[i]] + g;
      assert body[0] == s[i] && body[1..] == g;
      assert DotsInserted(s[i..], body);
      if SeparatorAt(s, i) {
        var r := "." + body;
        assert r[0] == '.' && r[1..] == body;
        assert GroupFrom(s, i) == r;
      } else {
        assert GroupFrom(s, i) == body;
      }
    } else {
      assert !SeparatorAt(s, i);
      assert GroupFrom(s, i) == [] && s[i..] == [];
    }
  }

  lemma {:induction false} GroupFromLonger(s: string, i: nat)
    requires i <= |s|
    ensures |s| - i <= |GroupFrom(s, i)|
    decreases |s| - i
  {
    if i < |s| {
      GroupFromLonger(s, i + 1);
    }
  }

  // ---- Reference definition: thousands grouping of a digit string ----

  /** The canonical grouping of a digit string: the last three digits are
      one group, preceded by the grouping of the rest and a separator. */
  function GroupThousands(d: string): string
    decreases |d|
  {
    if |d| <= 3 then d else GroupThousands(d[..|d| - 3]) + "." + d[|d| - 3..]
  }

  /** Canonically grouped text: counted from the right, every fourth
      character is a `.` and all others are digits, and the leftmost group is
      not empty; so a first group of one to three digits is followed by groups
      of exactly three. */
  predicate Canonical(t: string) {
    |t| % 4 != 0
    && forall j :: 0 <= j < |t| ==> if (|t| - j) % 4 == 0 then t[j] == '.' else IsDigit(t[j])
  }

  function RemoveDots(t: string): (r: string)
    ensures |r| <= |t|
  {
    if t == [] then [] else (if t[0] == '.' then [] else [t[0]]) + RemoveDots(t[1..])
  }

  lemma {:induction false} RemoveDotsAppend(a: string, b: string)
    ensures RemoveDots(a + b) == RemoveDots(a) + RemoveDots(b)
  {
    if a != [] {
      assert (a + b)[0] == a[0] && (a + b)[1..] == a[1..] + b;
      RemoveDotsAppend(a[1..], b);
    } else {
      assert a + b == b;
    }
  }

  lemma {:induction false} RemoveDotsOfDigits(d: string)
    requires AllDigits(d)
    ensures RemoveDots(d) == d
  {
    if d != [] {
      RemoveDotsOfDigits(d[1..]);
    }
  }

  // ---- The separator positions in a digit string ----

  lemma DigitRunOfDigits(s: string, p: nat)
    requires AllDigits(s) && p <= |s|
    ensures DigitRun(s, p) == |s| - p
  {
  }

  /** In a digit string a separator goes before every position other than the
      first from which a multiple of three digits remain. */
  lemma SeparatorInDigits(s: string, p: nat)
    requires AllDigits(s) && p <= |s|
    ensures SeparatorAt(s, p) <==> 0 < p < |s| && (|s| - p) % 3 == 0
  {
    DigitRunOfDigits(s, p);
  }

  /** Where no separator belongs, the output is the input. */
  lemma {:induction false} GroupFromUnchanged(s: string, i: nat)
    requires i <= |s|
    requires forall p :: i <= p <= |s| ==> !SeparatorAt(s, p)
    ensures GroupFrom(s, i) == s[i..]
    decreases |s| - i
  {
    if i < |s| {
      GroupFromUnchanged(s, i + 1);
      assert [s[i]] + s[i + 1..] == s[i..];
    }
  }

  /** Before the last group, a digit string and the string without its last
      three digits take the same separators. */
  lemma SeparatorInPrefix(s: string, i: nat)
    requires AllDigits(s) && |s| >= 4 && i < |s| - 3
    ensures SeparatorAt(s[..|s| - 3], i) == SeparatorAt(s, i)
  {
    var s' := s[..|s| - 3];
    assert AllDigits(s');
    SeparatorInDigits(s, i);
    SeparatorInDigits(s', i);
  }

  /** No separator goes inside or after the last group of three digits. */
  lemma NoSeparatorInLastGroup(s: string, p: nat)
    requires AllDigits(s) && |s| - 3 < p <= |s|
    ensures !SeparatorAt(s, p)
  {
    SeparatorInDigits(s, p);
  }

  /** The last group of a digit string of four or more digits is preceded by a separator. */
  lemma GroupFromLastGroup(s: string)
    requires AllDigits(s) && |s| >= 4
    ensures GroupFrom(s, |s| - 3) == "." + s[|s| - 3..]
  {
    var i := |s| - 3;
    SeparatorInDigits(s, i);
    LastGroupTail(s);
    GroupFromStep(s, i);
    ConsSlice(s, i);
  }

  /** One step of the output: the separator due before position i, then the
      character there. */
  lemma GroupFromStep(s: string, i: nat)
    requires i < |s|
    ensures GroupFrom(s, i) == (if SeparatorAt(s, i) then "." else "") + ([s[i]] + GroupFrom(s, i + 1))
  {
  }

  lemma ConsSlice(s: string, i: nat)
    requires i < |s|
    ensures [s[i]] + s[i + 1..] == s[i..]
  {
  }

  /** After the first digit of the last group the output is the input. */
  lemma LastGroupTail(s: string)
    requires AllDigits(s) && |s| >= 4
    ensures GroupFrom(s, |s| - 2) == s[|s| - 2..]
  {
    forall p | |s| - 2 <= p <= |s| ensures !SeparatorAt(s, p) {
      NoSeparatorInLastGroup(s, p);
    }
    GroupFromUnchanged(s, |s| - 2);
  }

  /** One step of the output for the string without its last three digits,
      left of the last group. */
  lemma GroupFromPrefixStep(s: string, i: nat)
    requires AllDigits(s) && |s| >= 4 && i < |s| - 3
    ensures GroupFrom(s[..|s| - 3], i)
      == (if SeparatorAt(s, i) then "." else "") + ([s[i]] + GroupFrom(s[..|s| - 3], i + 1))
  {
    SeparatorInPrefix(s, i);
  }

  /** Dropping the last three digits changes nothing left of them; a
      separator then stands before the last group. */
  lemma {:induction false} GroupFromSplit(s: string, i: nat)
    requires AllDigits(s) && |s| >= 4 && i <= |s| - 3
    ensures GroupFrom(s, i) == GroupFrom(s[..|s| - 3], i) + "." + s[|s| - 3..]
    decreases |s| - i
  {
    if i == |s| - 3 {
      SplitAtLastGroup(s);
    } else {
      GroupFromSplit(s, i + 1);
      SplitStep(s, i);
    }
  }

  lemma SplitAtLastGroup(s: string)
    requires AllDigits(s) && |s| >= 4
    ensures GroupFrom(s, |s| - 3) == GroupFrom(s[..|s| - 3], |s| - 3) + "." + s[|s| - 3..]
  {
    GroupFromLastGroup(s);
    GroupFromAtEnd(s[..|s| - 3], |s| - 3);
    EmptyBeforeGroup(GroupFrom(s, |s| - 3), GroupFrom(s[..|s| - 3], |s| - 3), s[|s| - 3..]);
  }

  lemma EmptyBeforeGroup(x: string, e: string, tail: string)
    requires x == "." + tail && e == []
    ensures x == e + "." + tail
  {
  }

  /** Nothing is output past the end of the input. */
  lemma GroupFromAtEnd(t: string, i: nat)
    requires i == |t|
    ensures GroupFrom(t, i) == []
  {
    assert DigitRun(t, i) == 0;
  }

  lemma SplitStep(s: string, i: nat)
    requires AllDigits(s) && |s| >= 4 && i < |s| - 3
    requires GroupFrom(s, i + 1) == GroupFrom(s[..|s| - 3], i + 1) + "." + s[|s| - 3..]
    ensures GroupFrom(s, i) == GroupFrom(s[..|s| - 3], i) + "." + s[|s| - 3..]
  {
    var t, tail := s[..|s| - 3], s[|s| - 3..];
    GroupFromPrefixStep(s, i);
    var sep := if SeparatorAt(s, i) then "." else "";
    var g := GroupFrom(t, i + 1);
    assert GroupFrom(s, i) == sep + ([s[i]] + GroupFrom(s, i + 1));
    assert GroupFrom(s, i) == sep + ([s[i]] + (g + "." + tail));
    assert GroupFrom(t, i) == sep + ([s[i]] + g);
    Regroup(sep, [s[i]], g, ".", tail);
  }

  lemma Regroup(a: string, b: string, c: string, d: string, e: string)
    ensures a + (b + (c + d + e)) == (a + (b + c)) + d + e
  {
  }

  /** formatRupiah agrees with the reference grouping on digit strings. */
  lemma {:induction false} FormatRupiahGroupsThousands(d: string)
    requires AllDigits(d)
    ensures FormatRupiah(d) == GroupThousands(d)
    decreases |d|
  {
    if |d| <= 3 {
      forall p | 0 <= p <= |d| ensures !SeparatorAt(d, p) {
        SeparatorInDigits(d, p);
      }
      GroupFromUnchanged(d, 0);
    } else {
      GroupFromSplit(d, 0);
      FormatRupiahGroupsThousands(d[..|d| - 3]);
    }
  }

  // ---- Properties of the grouping ----

  /** For L digits, exactly (L - 1) / 3 separators are inserted. */
  lemma {:induction false} GroupThousandsDots(d: string)
    requires AllDigits(d) && |d| >= 1
    ensures multiset(GroupThousands(d))['.'] == (|d| - 1) / 3
    decreases |d|
  {
    if |d| <= 3 {
      assert multiset(d)['.'] == 0;
    } else {
      GroupThousandsDots(d[..|d| - 3]);
      assert multiset(d[|d| - 3..])['.'] == 0;
    }
  }

  /** Deleting the separators gives the digits back. */
  lemma {:induction false} GroupThousandsRemoveDots(d: string)
    requires AllDigits(d)
    ensures RemoveDots(GroupThousands(d)) == d
    decreases |d|
  {
    if |d| <= 3 {
      RemoveDotsOfDigits(d);
    } else {
      var h, l := d[..|d| - 3], d[|d| - 3..];
      DigitsSplit(d, |d| - 3);
      GroupThousandsRemoveDots(h);
      RemoveDotsOfDigits(l);
      GroupThousandsJoin(d);
    }
  }

  /** Both sides of a split of a digit string are digit strings. */
  lemma DigitsSplit(d: string, k: nat)
    requires AllDigits(d) && k <= |d|
    ensures AllDigits(d[..k]) && AllDigits(d[k..]) && d[..k] + d[k..] == d
  {
  }

  /** Deleting the separators of a grouping of more than three digits. */
  lemma GroupThousandsJoin(d: string)
    requires |d| > 3
    ensures RemoveDots(GroupThousands(d))
      == RemoveDots(GroupThousands(d[..|d| - 3])) + RemoveDots(d[|d| - 3..])
  {
    RemoveDotsJoin(GroupThousands(d[..|d| - 3]), d[|d| - 3..]);
  }

  /** A separator between two texts disappears and the texts are joined. */
  lemma RemoveDotsJoin(g: string, l: string)
    ensures RemoveDots(g + "." + l) == RemoveDots(g) + RemoveDots(l)
  {
    var x := g + ".";
    RemoveDotsAppend(x, l);
    RemoveDotsAppend(g, ".");
    RemoveDotsOfDot();
  }

  lemma RemoveDotsOfDot()
    ensures RemoveDots(".") == []
  {
    assert "."[1..] == [];
  }

  /** A separator and three more digits keep canonical text canonical. */
  lemma CanonicalAppendGroup(g: string, l: string)
    requires Canonical(g) && AllDigits(l) && |l| == 3
    ensures Canonical(g + "." + l)
  {
    var t := g + "." + l;
    assert |t| == |g| + 4;
    forall j | 0 <= j < |t|
      ensures if (|t| - j) % 4 == 0 then t[j] == '.' else IsDigit(t[j])
    {
      if j < |g| {
        assert t[j] == g[j];
        assert (|t| - j) % 4 == (|g| - j) % 4;
      } else if j > |g| {
        assert t[j] == l[j - |g| - 1];
        assert 0 < |t| - j < 4;
      }
    }
  }

  /** The grouping of a nonempty digit string is canonical. */
  lemma {:induction false} GroupThousandsCanonical(d: string)
    requires AllDigits(d) && |d| >= 1
    ensures Canonical(GroupThousands(d))
    decreases |d|
  {
    if |d| > 3 {
      var h := d[..|d| - 3];
      GroupThousandsCanonical(h);
      CanonicalAppendGroup(GroupThousands(h), d[|d| - 3..]);
    }
  }

  // ---- Idempotence ----

  /** In canonical text the digit run at a digit reaches the next separator. */
  lemma DigitRunInCanonical(t: string, p: nat)
    requires Canonical(t) && p < |t| && IsDigit(t[p])
    ensures DigitRun(t, p) == (|t| - p) % 4
  {
    var k := (|t| - p) % 4;
    var e := p + k;
    assert e <= |t|;
    forall j | p <= j < e ensures IsDigit(t[j]) {
      ModDown(|t| - p, j - p);
    }
    if e < |t| {
      ModDown(|t| - p, k);
      assert t[e] == '.';
    }
    DigitRunEndsAt(t, p, e);
  }

  /** Stepping d positions to the right within a group of four. */
  lemma ModDown(a: nat, d: nat)
    requires d <= a % 4
    ensures (a - d) % 4 == a % 4 - d
  {
  }

  lemma NoSeparatorInCanonical(t: string, p: nat)
    requires Canonical(t) && p <= |t|
    ensures !SeparatorAt(t, p)
  {
    if p < |t| && IsDigit(t[p]) {
      DigitRunInCanonical(t, p);
      if (|t| - p) % 4 == 3 {
        assert IsWordChar(t[p]);
        if p > 0 {
          assert (|t| - (p - 1)) % 4 == 0;
          assert t[p - 1] == '.';
          assert !IsWordChar(t[p - 1]);
        }
        assert !NotWordBoundary(t, p);
      }
    } else {
      assert DigitRun(t, p) == 0;
    }
  }

  /** Already grouped text is returned unchanged. */
  lemma FormatRupiahIdempotent(t: string)
    requires Canonical(t)
    ensures FormatRupiah(t) == t
  {
    forall p | 0 <= p <= |t| ensures !SeparatorAt(t, p) {
      NoSeparatorInCanonical(t, p);
    }
    GroupFromUnchanged(t, 0);
  }

  /** For a nonempty digit string: (L - 1) / 3 separators, the digits back when
      they are deleted, canonical groups, and a second formatting changes nothing. */
  lemma FormatRupiahOfDigits(d: string)
    requires AllDigits(d) && |d| >= 1
    ensures multiset(FormatRupiah(d))['.'] == (|d| - 1) / 3
    ensures RemoveDots(FormatRupiah(d)) == d
    ensures Canonical(FormatRupiah(d))
    ensures FormatRupiah(FormatRupiah(d)) == FormatRupiah(d)
  {
    FormatRupiahGroupsThousands(d);
    GroupThousandsDots(d);
    GroupThousandsRemoveDots(d);
    GroupThousandsCanonical(d);
    FormatRupiahIdempotent(FormatRupiah(d));
  }

  /** For any input, separators are the only thing inserted. */
  lemma {:induction false} GroupFromRemoveDots(s: string, i: nat)
    requires i <= |s|
    ensures RemoveDots(GroupFrom(s, i)) == RemoveDots(s[i..])
    decreases |s| - i
  {
    if i < |s| {
      var sep := if SeparatorAt(s, i) then "." else "";
      var g := GroupFrom(s, i + 1);
      assert GroupFrom(s, i) == sep + ([s[i]] + g);
      GroupFromRemoveDots(s, i + 1);
      RemoveDotsAppend(sep, [s[i]] + g);
      RemoveDotsAppend([s[i]], g);
      RemoveDotsAppend([s[i]], s[i + 1..]);
      assert [s[i]] + s[i + 1..] == s[i..];
    } else {
      assert !SeparatorAt(s, i);
      assert s[i..] == [];
    }
  }

  /** The price as the letter shows it (src/app/page.js:422): `Rp`, the
      grouped amount, `,00`; the amount is the field with separators
      inserted, so its other characters are kept in the same order. */
  function PriceText(harga: string): (t: string)
    ensures |t| >= |harga| + 5
    ensures t[..2] == "Rp" && t[|t| - 3..] == ",00"
    ensures DotsInserted(harga, t[2..|t| - 3])
    ensures RemoveDots(t[2..|t| - 3]) == RemoveDots(harga)
  {
    var amount := FormatRupiah(harga);
    var t := "Rp" + amount + ",00";
    assert t[2..|t| - 3] == amount;
    t
  }

  /** Already grouped text is printed verbatim between `Rp` and `,00`. */
  lemma PriceTextOfCanonical(t: string)
    requires Canonical(t)
    ensures PriceText(t) == "Rp" + t + ",00"
  {
    FormatRupiahIdempotent(t);
  }

  /** The digits 138000000 are grouped as 138.000.000, and the default
      price 138.000.000 is shown as it is. */
  lemma DefaultPriceExamples()
    ensures FormatRupiah("138000000") == "138.000.000"
    ensures FormatRupiah("138.000.000") == "138.000.000"
  {
    var d := "138000000";
    assert d[..6] == "138000" && d[6..] == "000";
    assert d[..6][..3] == "138" && d[..6][3..] == "000";
    assert GroupThousands(d) == "138.000.000";
    FormatRupiahGroupsThousands(d);
    GroupThousandsCanonical(d);
    FormatRupiahIdempotent(GroupThousands(d));
  }
}
