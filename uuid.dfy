/** Formatting of a 32-digit hexadecimal account id as a hyphenated UUID (src/uuid.ts). */
module Uuid {
  import opened Wrappers

  /** Positions in the 32-digit input before which a hyphen is inserted. */
  const HyphenPositions: seq<nat> := [8, 12, 16, 20]

  /** The message of the error thrown for an input that is not 32 hexadecimal digits. */
  const ValueError := "Value must be string of 32 hexadecimal numbers"

  predicate IsHexDigit(c: char) {
    ('0' <= c <= '9') || ('A' <= c <= 'F') || ('a' <= c <= 'f')
  }

  /** The test of the anchored pattern ^[0-9A-Fa-f]{32}$ against the whole input. */
  predicate IsHex32(s: string) {
    |s| == 32 && forall i | 0 <= i < |s| :: IsHexDigit(s[i])
  }

  /** The index at which `insert` places its value: `slice` clamps a position past the end. */
  function InsertionPoint(position: nat, length: nat): (p: nat)
    ensures p <= length
    ensures p == position || (position > length && p == length)
  {
    if position <= length then position else length
  }

  /** `insert(source, position, value)`: a new sequence with `value` placed at `position`;
      `source` itself is a value and is left as it was. */
  function Insert<T>(source: seq<T>, position: nat, value: T): (r: seq<T>)
    ensures |r| == |source| + 1
    ensures r[InsertionPoint(position, |source|)] == value
    ensures forall i | 0 <= i < InsertionPoint(position, |source|) :: r[i] == source[i]
    ensures forall i | InsertionPoint(position, |source|) <= i < |source| :: r[i + 1] == source[i]
  {
    var p := InsertionPoint(position, |source|);
    source[..p] + [value] + source[p..]
  }

  /** Taking the inserted element back out of the result of Insert gives the source again. */
  lemma InsertThenDelete<T>(source: seq<T>, position: nat, value: T)
    ensures var p := InsertionPoint(position, |source|);
            var r := Insert(source, position, value);
            r[..p] + r[p + 1..] == source
  {
    var p := InsertionPoint(position, |source|);
    var r := Insert(source, position, value);
    assert r[..p] == source[..p];
    assert r[p + 1..] == source[p..];
    assert source[..p] + source[p..] == source;
  }

  /** The 8-4-4-4-12 layout of a UUID: the 32 digits in five groups separated by hyphens. */
  function Canonical(h: string): (u: string)
    requires |h| == 32
  {
    h[..8] + "-" + h[8..12] + "-" + h[12..16] + "-" + h[16..20] + "-" + h[20..]
  }

  /** The working value of `toUUID` after the first k hyphens have been inserted. */
  ghost function Partial(h: string, k: nat): string
    requires |h| == 32 && k <= 4
  {
    if k == 0 then h
    else if k == 1 then h[..8] + "-" + h[8..]
    else if k == 2 then h[..8] + "-" + h[8..12] + "-" + h[12..]
    else if k == 3 then h[..8] + "-" + h[8..12] + "-" + h[12..16] + "-" + h[16..]
    else Canonical(h)
  }

  /** Step k of the loop inserts at HyphenPositions[k] + k, which counts the k hyphens already
      inserted, and so extends the layout by exactly one more group boundary. */
  lemma InsertStep(h: string, k: nat)
    requires |h| == 32 && k < 4
    ensures Insert(Partial(h, k), HyphenPositions[k] + k, '-') == Partial(h, k + 1)
  {
    var s := Partial(h, k);
    var pos := HyphenPositions[k] + k;
    assert |s| == 32 + k;
    var r := Insert(s, pos, '-');
    var t := Partial(h, k + 1);
    assert |r| == |t|;
    forall i | 0 <= i < |r|
      ensures r[i] == t[i]
    {
      if i < pos {
        assert r[i] == s[i];
      } else if i > pos {
        assert r[i] == s[i - 1];
      }
    }
  }

  /** `toUUID`: rejects anything but exactly 32 hexadecimal digits, otherwise inserts a hyphen
      at each of HyphenPositions, shifted by the number of hyphens already inserted. */
  method ToUuid(value: string) returns (r: Result<string, string>)
    ensures r.Failure? <==> !IsHex32(value)
    ensures r.Failure? ==> r.error == ValueError
    ensures r.Success? ==> r.value == Canonical(value)
  {
    if !IsHex32(value) {
      return Failure(ValueError);
    }
    var chars := value;
    var offset := 0;
    for i := 0 to |HyphenPositions|
      invariant offset == i
      invariant chars == Partial(value, i)
    {
      var position := HyphenPositions[i] + offset;
      offset := offset + 1;
      InsertStep(value, i);
      chars := Insert(chars, position, '-');
    }
    return Success(chars);
  }

  /** How many hyphens precede index j of a formatted UUID. */
  function HyphensBefore(j: nat): (n: nat)
    ensures n <= 4
  {
    if j <= 8 then 0 else if j <= 13 then 1 else if j <= 18 then 2 else if j <= 23 then 3 else 4
  }

  /** The result of a valid input is 36 characters long with a hyphen at indices 8, 13, 18
      and 23 and nowhere else; every other index j holds input digit j - HyphensBefore(j). */
  lemma CanonicalShape(h: string)
    requires IsHex32(h)
    ensures |Canonical(h)| == 36
    ensures forall j | 0 <= j < 36 :: Canonical(h)[j] == '-' <==> j in {8, 13, 18, 23}
    ensures forall j | 0 <= j < 36 && j !in {8, 13, 18, 23} :: Canonical(h)[j] == h[j - HyphensBefore(j)]
  {
    var u := Canonical(h);
    forall j | 0 <= j < 36
      ensures u[j] == '-' <==> j in {8, 13, 18, 23}
      ensures j !in {8, 13, 18, 23} ==> u[j] == h[j - HyphensBefore(j)]
    {
      if j < 8 { assert u[j] == h[j]; }
      else if 8 < j < 13 { assert u[j] == h[j - 1]; }
      else if 13 < j < 18 { assert u[j] == h[j - 2]; }
      else if 18 < j < 23 { assert u[j] == h[j - 3]; }
      else if 23 < j { assert u[j] == h[j - 4]; }
      if j !in {8, 13, 18, 23} { assert IsHexDigit(h[j - HyphensBefore(j)]); }
    }
  }

  /** The characters of `s` other than hyphens, in order. */
  function StripHyphens(s: string): (r: string)
    ensures |r| <= |s|
    ensures '-' !in r
  {
    if s == [] then []
    else (if s[0] == '-' then [] else [s[0]]) + StripHyphens(s[1..])
  }

  lemma {:induction false} StripConcat(a: string, b: string)
    ensures StripHyphens(a + b) == StripHyphens(a) + StripHyphens(b)
  {
    if a == [] {
      assert a + b == b;
    } else {
      var head := if a[0] == '-' then [] else [a[0]];
      assert (a + b)[0] == a[0];
      assert (a + b)[1..] == a[1..] + b;
      assert StripHyphens(a + b) == head + StripHyphens(a[1..] + b);
      StripConcat(a[1..], b);
      assert StripHyphens(a) == head + StripHyphens(a[1..]);
    }
  }

  lemma {:induction false} StripNoHyphens(s: string)
    requires '-' !in s
    ensures StripHyphens(s) == s
  {
    if s != [] {
      StripNoHyphens(s[1..]);
    }
  }

  lemma DigitsKept(h: string, i: nat, j: nat)
    requires IsHex32(h) && i <= j <= 32
    ensures StripHyphens(h[i..j]) == h[i..j]
  {
    assert forall k | 0 <= k < j - i :: h[i..j][k] == h[i + k] && IsHexDigit(h[i + k]);
    StripNoHyphens(h[i..j]);
  }

  lemma StripJoin(a: string, b: string)
    ensures StripHyphens(a + "-" + b) == StripHyphens(a) + StripHyphens(b)
  {
    StripConcat(a + "-", b);
    StripConcat(a, "-");
  }

  /** Removing the hyphens from the formatted value gives back the input exactly: every digit
      keeps its case and position, nothing is normalised. */
  lemma RoundTrip(h: string)
    requires IsHex32(h)
    ensures StripHyphens(Canonical(h)) == h
  {
    var a, b, c, d, e := h[..8], h[8..12], h[12..16], h[16..20], h[20..];
    DigitsKept(h, 0, 8);
    DigitsKept(h, 8, 12);
    DigitsKept(h, 12, 16);
    DigitsKept(h, 16, 20);
    DigitsKept(h, 20, 32);
    assert h[0..8] == a && h[20..32] == e;
    assert h[..12] == a + b;
    assert h[..16] == h[..12] + c;
    assert h[..20] == h[..16] + d;
    assert h == h[..20] + e;
    var x1 := a + "-" + b;
    var x2 := x1 + "-" + c;
    var x3 := x2 + "-" + d;
    assert Canonical(h) == x3 + "-" + e;
    calc {
      StripHyphens(Canonical(h));
      { StripJoin(x3, e); }
      StripHyphens(x3) + e;
      { StripJoin(x2, d); }
      StripHyphens(x2) + d + e;
      { StripJoin(x1, c); }
      StripHyphens(x1) + c + d + e;
      { StripJoin(a, b); }
      a + b + c + d + e;
      h;
    }
  }

  /** Thirty-two zeros format as the nil UUID, 00000000-0000-0000-0000-000000000000 (written
      here in its groups). */
  lemma ZerosExample()
    ensures var z := "00000000" + "0000" + "0000" + "0000" + "000000000000";
            |z| == 32 &&
            Canonical(z) == "00000000" + "-" + "0000" + "-" + "0000" + "-" + "0000" + "-" + "000000000000"
  {
    var a, b, e := "00000000", "0000", "000000000000";
    var z := a + b + b + b + e;
    assert z[..8] == a;
    assert z[8..12] == b && z[12..16] == b && z[16..20] == b;
    assert z[20..] == e;
  }

  /** Thirty-two zeros pass the validation and "zz" does not. */
  lemma ValidationExamples()
    ensures IsHex32("00000000" + "0000" + "0000" + "0000" + "000000000000")
    ensures !IsHex32("zz")
  {
  }
}
