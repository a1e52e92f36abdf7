/**
 * The release editor's version comparator: versions are split on dots, each
 * piece read as a base-10 integer (unreadable pieces and missing pieces count
 * as 0) and compared piece by piece, the first difference deciding. The
 * editor enables saving only for a version above the previous one.
 */
module VersionCompare {
  import opened Common

  /** The characters JavaScript's `parseInt` skips before the number. */
  predicate IsJsSpace(c: char) {
    c == ' ' || '\t' <= c <= '\r' || c == 0xA0 as char || c == 0xFEFF as char || c == 0x1680 as char ||
    (0x2000 as char <= c <= 0x200A as char) || c == 0x2028 as char || c == 0x2029 as char ||
    c == 0x202F as char || c == 0x205F as char || c == 0x3000 as char
  }

  predicate IsDigit(c: char) { '0' <= c <= '9' }

  function DropJsSpace(s: string): (r: string)
    ensures |r| <= |s|
    ensures r == [] || !IsJsSpace(r[0])
  {
    if s == [] || !IsJsSpace(s[0]) then s else DropJsSpace(s[1..])
  }

  /** Only a leading run of whitespace is dropped; the rest is kept as it is. */
  lemma {:induction false} DropJsSpaceSuffix(s: string)
    ensures var r := DropJsSpace(s);
      r == s[|s| - |r|..] && forall j :: 0 <= j < |s| - |r| ==> IsJsSpace(s[j])
    decreases |s|
  {
    if s != [] && IsJsSpace(s[0]) {
      DropJsSpaceSuffix(s[1..]);
      var r := DropJsSpace(s);
      assert s[1..][|s| - 1 - |r|..] == s[|s| - |r|..];
      forall j | 0 <= j < |s| - |r|
        ensures IsJsSpace(s[j])
      {
        if j > 0 {
          assert s[j] == s[1..][j - 1];
        }
      }
    }
  }

  /** The longest prefix made of decimal digits. */
  function LeadingDigits(s: string): (r: string)
    ensures r <= s
    ensures forall i :: 0 <= i < |r| ==> IsDigit(r[i])
    ensures |r| < |s| ==> !IsDigit(s[|r|])
  {
    if s == [] || !IsDigit(s[0]) then [] else [s[0]] + LeadingDigits(s[1..])
  }

  /** The value of a string of decimal digits. */
  function DigitsValue(d: string): (n: nat)
    requires forall i :: 0 <= i < |d| ==> IsDigit(d[i])
  {
    if d == [] then 0
    else
      assert IsDigit(d[|d| - 1]);
      DigitsValue(d[..|d| - 1]) * 10 + (d[|d| - 1] as int - '0' as int)
  }

  /**
   * `parseInt(value, 10)`: whitespace skipped, an optional sign, then as many
   * digits as there are; no digit at all is NaN, written `None`.
   */
  function ParseInt(s: string): (r: Option<int>)
    ensures r.Some? <==> StartsWithDigit(Unsigned(DropJsSpace(s)))
  {
    var t := DropJsSpace(s);
    var digits := LeadingDigits(Unsigned(t));
    var v: int := DigitsValue(digits);
    if digits == [] then None
    else Some(if |t| > 0 && t[0] == '-' then -v else v)
  }

  predicate StartsWithDigit(t: string) {
    t != [] && IsDigit(t[0])
  }

  /** A number `parseInt` reads after a leading minus is not positive; any other is not negative. */
  lemma ParseIntSign(s: string)
    ensures ParseInt(s).Some? && DropJsSpace(s)[0] == '-' ==> ParseInt(s).value <= 0
    ensures ParseInt(s).Some? && DropJsSpace(s)[0] != '-' ==> ParseInt(s).value >= 0
  {
  }

  /** The text after an optional leading sign. */
  function Unsigned(t: string): (r: string)
    ensures r == t || (|t| > 0 && (t[0] == '-' || t[0] == '+') && r == t[1..])
  {
    if |t| > 0 && (t[0] == '-' || t[0] == '+') then t[1..] else t
  }

  /** The decimal form of a number reads back as that number. */
  lemma {:induction false} DigitsOfNat(n: nat)
    ensures forall i :: 0 <= i < |NatToString(n)| ==> IsDigit(NatToString(n)[i])
    ensures DigitsValue(NatToString(n)) == n
    decreases n
  {
    var s := NatToString(n);
    if n >= 10 {
      DigitsOfNat(n / 10);
      var hi := NatToString(n / 10);
      assert s == hi + [DigitChar(n % 10)];
      assert s[..|s| - 1] == hi;
      assert DigitChar(n % 10) as int - '0' as int == n % 10;
    } else {
      assert DigitChar(n) as int - '0' as int == n;
    }
  }

  /** `parseInt` reads back the decimal form of every natural number. */
  lemma ParseIntOfNat(n: nat)
    ensures ParseInt(NatToString(n)) == Some(n)
  {
    DigitsOfNat(n);
    var s := NatToString(n);
    assert IsDigit(s[0]);
    DigitIsNotSpace(s[0]);
    assert DropJsSpace(s) == s;
    assert Unsigned(s) == s;
    AllDigitsLead(s);
    assert LeadingDigits(Unsigned(DropJsSpace(s))) == s;
  }

  lemma DigitIsNotSpace(c: char)
    requires IsDigit(c)
    ensures !IsJsSpace(c) && c != '-' && c != '+'
  {
  }

  lemma {:induction false} AllDigitsLead(s: string)
    requires forall i :: 0 <= i < |s| ==> IsDigit(s[i])
    ensures LeadingDigits(s) == s
  {
    if s != [] {
      AllDigitsLead(s[1..]);
    }
  }

  /** `normalize`: one parsed piece per dot-separated piece; a NaN piece is kept. */
  function Normalize(version: string): (r: seq<Option<int>>)
    ensures |r| == |Split(version, '.')| && |r| >= 1
    ensures forall i :: 0 <= i < |r| ==> r[i] == ParseInt(Split(version, '.')[i])
  {
    var pieces := Split(version, '.');
    seq(|pieces|, i requires 0 <= i < |pieces| => ParseInt(pieces[i]))
  }

  /** `v[i] || 0`: a missing piece, a NaN piece and zero all read as 0. */
  function Seg(v: seq<Option<int>>, i: nat): (r: int)
    ensures i >= |v| ==> r == 0
    ensures i < |v| ==> (r == 0 <==> v[i] == None || v[i] == Some(0))
  {
    if i < |v| && v[i].Some? then v[i].value else 0
  }

  /** The piece a JavaScript array holds at `j`: past its end, nothing. */
  function Pad(v: seq<Option<int>>, j: nat): Option<int> {
    if j < |v| then v[j] else None
  }

  function Max(a: nat, b: nat): nat { if a < b then b else a }

  /** The comparison loop from piece `i` on, over `n` pieces. */
  function CompareFrom(a: seq<Option<int>>, b: seq<Option<int>>, i: nat, n: nat): (r: int)
    ensures r == -1 || r == 0 || r == 1
    decreases n - i
  {
    if i >= n then 0
    else if Seg(a, i) == Seg(b, i) then CompareFrom(a, b, i + 1, n)
    else if Seg(a, i) > Seg(b, i) then 1 else -1
  }

  /** The comparison of two normalized versions over all their pieces. */
  function ComparePieces(a: seq<Option<int>>, b: seq<Option<int>>): (r: int)
    ensures r == -1 || r == 0 || r == 1
  {
    CompareFrom(a, b, 0, Max(|a|, |b|))
  }

  /**
   * The result is decided by the first piece that differs: 0 when there is
   * none, 1 when the first version's piece there is larger, -1 when smaller.
   */
  lemma {:induction false} CompareFromFirstDifference(a: seq<Option<int>>, b: seq<Option<int>>, i: nat, n: nat)
    ensures CompareFrom(a, b, i, n) == 0 <==> forall j :: i <= j < n ==> Seg(a, j) == Seg(b, j)
    ensures CompareFrom(a, b, i, n) == 1 <==>
              exists k :: i <= k < n && Seg(a, k) > Seg(b, k) && forall j :: i <= j < k ==> Seg(a, j) == Seg(b, j)
    ensures CompareFrom(a, b, i, n) == -1 <==>
              exists k :: i <= k < n && Seg(a, k) < Seg(b, k) && forall j :: i <= j < k ==> Seg(a, j) == Seg(b, j)
    decreases n - i
  {
    if i < n {
      CompareFromFirstDifference(a, b, i + 1, n);
      if Seg(a, i) == Seg(b, i) {
        if CompareFrom(a, b, i, n) == 1 {
          var k :| i + 1 <= k < n && Seg(a, k) > Seg(b, k) && forall j :: i + 1 <= j < k ==> Seg(a, j) == Seg(b, j);
          assert forall j :: i <= j < k ==> Seg(a, j) == Seg(b, j);
        }
        if CompareFrom(a, b, i, n) == -1 {
          var k :| i + 1 <= k < n && Seg(a, k) < Seg(b, k) && forall j :: i + 1 <= j < k ==> Seg(a, j) == Seg(b, j);
          assert forall j :: i <= j < k ==> Seg(a, j) == Seg(b, j);
        }
      }
    }
  }

  /** Swapping the arguments swaps the sign. */
  lemma {:induction false} CompareFromAntisymmetric(a: seq<Option<int>>, b: seq<Option<int>>, i: nat, n: nat)
    ensures CompareFrom(b, a, i, n) == -CompareFrom(a, b, i, n)
    decreases n - i
  {
    if i < n && Seg(a, i) == Seg(b, i) {
      CompareFromAntisymmetric(a, b, i + 1, n);
    }
  }

  /** Pieces past the end of both versions are 0 on both sides, so comparing further changes nothing. */
  lemma {:induction false} CompareFromPast(a: seq<Option<int>>, b: seq<Option<int>>, i: nat, n: nat, m: nat)
    requires Max(|a|, |b|) <= n <= m
    ensures CompareFrom(a, b, i, n) == CompareFrom(a, b, i, m)
    decreases m - i
  {
    if i < m {
      if i < n {
        if Seg(a, i) == Seg(b, i) {
          CompareFromPast(a, b, i + 1, n, m);
        }
      } else {
        assert Seg(a, i) == 0 && Seg(b, i) == 0;
        CompareFromPast(a, b, i + 1, n, m);
      }
    }
  }

  /** Ordering versions this way is transitive. */
  lemma {:induction false} CompareFromTransitive(a: seq<Option<int>>, b: seq<Option<int>>, c: seq<Option<int>>, i: nat, n: nat)
    requires CompareFrom(a, b, i, n) == 1 && CompareFrom(b, c, i, n) == 1
    ensures CompareFrom(a, c, i, n) == 1
    decreases n - i
  {
    if Seg(a, i) == Seg(b, i) && Seg(b, i) == Seg(c, i) {
      CompareFromTransitive(a, b, c, i + 1, n);
    }
  }

  /** The comparator is antisymmetric and transitive on any three versions. */
  lemma ComparePiecesOrder(a: seq<Option<int>>, b: seq<Option<int>>, c: seq<Option<int>>)
    ensures ComparePieces(b, a) == -ComparePieces(a, b)
    ensures ComparePieces(a, b) == 1 && ComparePieces(b, c) == 1 ==> ComparePieces(a, c) == 1
  {
    CompareFromAntisymmetric(a, b, 0, Max(|a|, |b|));
    assert Max(|b|, |a|) == Max(|a|, |b|);
    var n := Max(Max(|a|, |b|), |c|);
    CompareFromPast(a, b, 0, Max(|a|, |b|), n);
    CompareFromPast(b, c, 0, Max(|b|, |c|), n);
    CompareFromPast(a, c, 0, Max(|a|, |c|), n);
    if ComparePieces(a, b) == 1 && ComparePieces(b, c) == 1 {
      CompareFromTransitive(a, b, c, 0, n);
    }
  }

  /** A version compared with itself is 0, so the early return for equal strings agrees with the loop. */
  lemma {:induction false} CompareFromSelf(a: seq<Option<int>>, i: nat, n: nat)
    ensures CompareFrom(a, a, i, n) == 0
    decreases n - i
  {
    if i < n {
      CompareFromSelf(a, i + 1, n);
    }
  }

  const NeedsParameter := "$.versioncompare needs at least one parameter."

  /**
   * `$.versioncompare(version1, version2)`: a missing first version throws; a
   * missing or empty second version is the jQuery version.
   */
  function CompareSpec(version1: Option<string>, version2: Option<string>, jquery: string): (r: Result<int, string>)
    ensures r.Err? <==> version1.None?
    ensures r.Err? ==> r.error == NeedsParameter
    ensures r.Ok? ==> r.value == -1 || r.value == 0 || r.value == 1
  {
    if version1.None? then Err(NeedsParameter)
    else
      var other := if version2.None? || version2.value == "" then jquery else version2.value;
      if version1.value == other then Ok(0)
      else Ok(ComparePieces(Normalize(version1.value), Normalize(other)))
  }

  /** The early return for identical strings never changes the answer. */
  lemma EqualStringsShortcut(v: string, other: string)
    requires v == other && other != ""
    ensures CompareSpec(Some(v), Some(other), "") == Ok(ComparePieces(Normalize(v), Normalize(other)))
  {
    CompareFromSelf(Normalize(v), 0, Max(|Normalize(v)|, |Normalize(v)|));
  }

  /**
   * `$.versioncompare` as the source runs it: a missing first version throws,
   * the second defaults to the jQuery version, identical strings are 0 and
   * otherwise the normalized pieces are walked.
   */
  method Compare(version1: Option<string>, version2: Option<string>, jquery: string) returns (r: Result<int, string>)
    ensures r == CompareSpec(version1, version2, jquery)
  {
    if version1.None? {
      return Err(NeedsParameter);
    }
    var other := if version2.None? || version2.value == "" then jquery else version2.value;
    if version1.value == other {
      return Ok(0);
    }
    var c := ComparePadded(Normalize(version1.value), Normalize(other));
    r := Ok(c);
  }

  /**
   * The loop of `$.versioncompare`: both normalized arrays are overwritten in
   * place with `v[i] || 0` while it walks them up to the longer length.
   */
  method ComparePadded(n1: seq<Option<int>>, n2: seq<Option<int>>) returns (r: int)
    ensures r == ComparePieces(n1, n2)
  {
    var len := Max(|n1|, |n2|);
    var v1 := new Option<int>[len](j requires 0 <= j < len => Pad(n1, j));
    var v2 := new Option<int>[len](j requires 0 <= j < len => Pad(n2, j));
    var i := 0;
    while i < len
      invariant 0 <= i <= len
      invariant forall j :: i <= j < len ==> v1[j] == Pad(n1, j)
      invariant forall j :: i <= j < len ==> v2[j] == Pad(n2, j)
      invariant CompareFrom(n1, n2, i, len) == ComparePieces(n1, n2)
    {
      var x := if v1[i].Some? then v1[i].value else 0;
      var y := if v2[i].Some? then v2[i].value else 0;
      assert x == Seg(n1, i) && y == Seg(n2, i);
      v1[i] := Some(x);
      v2[i] := Some(y);
      if x != y {
        return if x > y then 1 else -1;
      }
      i := i + 1;
    }
    r := 0;
  }

  /** `parseInt` of a one-digit piece. */
  lemma ParseDigit(c: char)
    requires IsDigit(c)
    ensures ParseInt([c]) == Some(c as int - '0' as int)
  {
    DigitIsNotSpace(c);
    assert DropJsSpace([c]) == [c];
    assert Unsigned([c]) == [c];
    AllDigitsLead([c]);
    assert LeadingDigits(Unsigned(DropJsSpace([c]))) == [c];
    assert [c][..0] == [];
    assert DigitsValue([c]) == c as int - '0' as int;
  }

  /** Normalizing a version whose first piece is `p`. */
  lemma NormalizeCons(p: string, rest: string)
    requires '.' !in p
    ensures Normalize(p + ['.'] + rest) == [ParseInt(p)] + Normalize(rest)
  {
    var v := p + ['.'] + rest;
    SplitFirst(p, rest, '.');
    ParsedCons(Normalize(v), Normalize(rest), Split(v, '.'), Split(rest, '.'), p);
  }

  /** Parsing the pieces `[p] + sr` one by one is parsing `p` and then `sr`. */
  lemma ParsedCons(n: seq<Option<int>>, m: seq<Option<int>>, sv: seq<string>, sr: seq<string>, p: string)
    requires sv == [p] + sr
    requires |n| == |sv| && forall i :: 0 <= i < |n| ==> n[i] == ParseInt(sv[i])
    requires |m| == |sr| && forall i :: 0 <= i < |m| ==> m[i] == ParseInt(sr[i])
    ensures n == [ParseInt(p)] + m
  {
    forall i | 0 <= i < |n|
      ensures n[i] == ([ParseInt(p)] + m)[i]
    {
      if i > 0 {
        assert sv[i] == sr[i - 1];
      }
    }
  }

  /** Normalizing a version without a dot. */
  lemma NormalizeOne(p: string)
    requires '.' !in p
    ensures Normalize(p) == [ParseInt(p)]
  {
    SplitWhole(p, '.');
  }

  /** Normalizing a version of two pieces. */
  lemma NormalizeTwo(p: string, q: string)
    requires '.' !in p && '.' !in q
    ensures Normalize(p + ['.'] + q) == [ParseInt(p), ParseInt(q)]
  {
    NormalizeCons(p, q);
    NormalizeOne(q);
  }

  /** Normalizing a version of three pieces. */
  lemma NormalizeThree(p: string, q: string, t: string)
    requires '.' !in p && '.' !in q && '.' !in t
    ensures Normalize(p + ['.'] + q + ['.'] + t) == [ParseInt(p), ParseInt(q), ParseInt(t)]
  {
    assert p + ['.'] + q + ['.'] + t == p + ['.'] + (q + ['.'] + t);
    NormalizeCons(p, q + ['.'] + t);
    NormalizeTwo(q, t);
    assert [ParseInt(p)] + [ParseInt(q), ParseInt(t)] == [ParseInt(p), ParseInt(q), ParseInt(t)];
  }

  /** A version `x.y` of one-digit pieces. */
  lemma NormalizeDigits2(x: char, y: char)
    requires IsDigit(x) && IsDigit(y)
    ensures Normalize([x, '.', y]) == [Some(x as int - '0' as int), Some(y as int - '0' as int)]
  {
    assert [x, '.', y] == [x] + ['.'] + [y];
    NormalizeTwo([x], [y]);
    ParseDigit(x);
    ParseDigit(y);
  }

  /** A version `x.y.z` of one-digit pieces. */
  lemma NormalizeDigits3(x: char, y: char, z: char)
    requires IsDigit(x) && IsDigit(y) && IsDigit(z)
    ensures Normalize([x, '.', y, '.', z]) ==
            [Some(x as int - '0' as int), Some(y as int - '0' as int), Some(z as int - '0' as int)]
  {
    assert [x, '.', y, '.', z] == [x] + ['.'] + [y] + ['.'] + [z];
    NormalizeThree([x], [y], [z]);
    ParseDigit(x);
    ParseDigit(y);
    ParseDigit(z);
  }

  /** The comparison of two different strings, once their normalized pieces are known. */
  lemma CompareSpecOf(v1: string, v2: string, a: seq<Option<int>>, b: seq<Option<int>>)
    requires v1 != v2 && v2 != ""
    requires Normalize(v1) == a && Normalize(v2) == b
    ensures CompareSpec(Some(v1), Some(v2), "") == Ok(ComparePieces(a, b))
  {
  }

  /** A later piece decides when the earlier ones agree: 1.4 is below 1.6.4. */
  lemma ExampleShorterLower()
    ensures CompareSpec(Some("1.4"), Some("1.6.4"), "") == Ok(-1)
  {
    var a, b := [Some(1), Some(4)], [Some(1), Some(6), Some(4)];
    assert ComparePieces(a, b) == -1 by {
      assert CompareFrom(a, b, 1, 3) == -1;
    }
    assert "1.4" != "1.6.4" by {
      assert |"1.4"| == 3;
    }
    NormalizeDigits2('1', '4');
    NormalizeDigits3('1', '6', '4');
    CompareSpecOf("1.4", "1.6.4", a, b);
  }

  /** `parseInt` of a two-digit piece. */
  lemma ParseTen()
    ensures ParseInt("10") == Some(10)
  {
    assert DropJsSpace("10") == "10";
    assert Unsigned("10") == "10";
    AllDigitsLead("10");
    assert "10"[..1] == "1";
    assert DigitsValue("1") == 1;
  }

  /** Normalizing 1.10. */
  lemma NormalizeOneTen()
    ensures Normalize("1.10") == [Some(1), Some(10)]
  {
    assert "1.10" == "1" + ['.'] + "10";
    NormalizeTwo("1", "10");
    ParseDigit('1');
    ParseTen();
  }

  /** Pieces compare as numbers, not as text: 1.10 is above 1.9. */
  lemma ExampleNumericPieces()
    ensures CompareSpec(Some("1.10"), Some("1.9"), "") == Ok(1)
  {
    var a, b := [Some(1), Some(10)], [Some(1), Some(9)];
    assert ComparePieces(a, b) == 1 by {
      assert CompareFrom(a, b, 1, 2) == 1;
    }
    assert "1.10" != "1.9" by {
      assert |"1.10"| == 4;
    }
    NormalizeOneTen();
    NormalizeDigits2('1', '9');
    CompareSpecOf("1.10", "1.9", a, b);
  }

  /** A missing trailing piece counts as 0: 1.4 equals 1.4.0. */
  lemma ExampleMissingIsZero()
    ensures CompareSpec(Some("1.4"), Some("1.4.0"), "") == Ok(0)
  {
    var a, b := [Some(1), Some(4)], [Some(1), Some(4), Some(0)];
    assert ComparePieces(a, b) == 0 by {
      assert CompareFrom(a, b, 2, 3) == 0;
      assert CompareFrom(a, b, 1, 3) == 0;
    }
    assert "1.4" != "1.4.0" by {
      assert |"1.4"| == 3;
    }
    NormalizeDigits2('1', '4');
    NormalizeDigits3('1', '4', '0');
    CompareSpecOf("1.4", "1.4.0", a, b);
  }

  /** Normalizing 1.beta: the second piece is NaN. */
  lemma NormalizeOneBeta()
    ensures Normalize("1.beta") == [Some(1), None]
  {
    assert "1.beta" == "1" + ['.'] + "beta";
    NormalizeTwo("1", "beta");
    ParseDigit('1');
    ParseBeta();
  }

  lemma ParseBeta()
    ensures ParseInt("beta") == None
  {
    assert DropJsSpace("beta") == "beta";
  }

  /** A piece that is not a number counts as 0: 1.beta equals 1.0. */
  lemma ExampleNaNIsZero()
    ensures CompareSpec(Some("1.beta"), Some("1.0"), "") == Ok(0)
  {
    var a, b := [Some(1), None], [Some(1), Some(0)];
    assert ComparePieces(a, b) == 0 by {
      assert CompareFrom(a, b, 1, 2) == 0;
    }
    assert "1.beta" != "1.0" by {
      assert |"1.0"| == 3;
    }
    NormalizeOneBeta();
    NormalizeDigits2('1', '0');
    CompareSpecOf("1.beta", "1.0", a, b);
  }

  /** What a change of the version field does to the save buttons. */
  datatype Gate = Unchanged | Enabled | Disabled

  /**
   * The version-change handler with the previous version read as text: with
   * no previous version nothing happens; otherwise saving is enabled exactly
   * when the new version is above it.
   */
  function SaveGate(newVersion: string, previous: string): (g: Gate)
    ensures previous == "" ==> g == Unchanged
    ensures previous != "" ==> (g == Enabled <==> CompareSpec(Some(newVersion), Some(previous), "") == Ok(1))
    ensures previous != "" ==> (g == Disabled <==> CompareSpec(Some(newVersion), Some(previous), "") != Ok(1))
  {
    if previous == "" then Unchanged
    else if CompareSpec(Some(newVersion), Some(previous), "") != Ok(1) then Disabled
    else Enabled
  }

  /** Re-entering the previous version, or any version equal to it piece by piece, keeps saving disabled. */
  lemma SameVersionDisables(newVersion: string, previous: string)
    requires previous != ""
    requires newVersion == previous || ComparePieces(Normalize(newVersion), Normalize(previous)) == 0
    ensures SaveGate(newVersion, previous) == Disabled
  {
  }

  /**
   * What `$selected.data('version')` hands back: jQuery turns an attribute
   * whose text reads back unchanged as a number ("2", "1.5") into a Number
   * and leaves any other text ("1.0", "1.5.1") as a string. `NumberData`
   * keeps the attribute text of such a number.
   */
  datatype PrevData = TextData(text: string) | NumberData(text: string)

  /**
   * The version-change handler as written. A text previous version behaves
   * as `SaveGate`. A number is falsy only when it is 0; otherwise
   * `$.versioncompare` returns 0 when `newVersion == number` holds in JS
   * (`looselyEqual`), and else `normalize` calls `split` on the number and
   * throws, leaving the buttons as they were.
   */
  function SaveGateAsWritten(newVersion: string, prev: PrevData, looselyEqual: bool): (g: Gate)
    ensures prev.TextData? ==> g == SaveGate(newVersion, prev.text)
    ensures prev.NumberData? ==> g != Enabled
    ensures prev.NumberData? ==> (g == Disabled <==> prev.text != "0" && looselyEqual)
  {
    match prev
    case TextData(t) => SaveGate(newVersion, t)
    case NumberData(t) => if t == "0" || !looselyEqual then Unchanged else Disabled
  }

  /**
   * A release at 1.5 is handed back as the number 1.5, so entering 1.6
   * leaves saving as it was, where reading the version as text enables it.
   */
  lemma NumericPreviousBlocksUpgrade()
    ensures SaveGateAsWritten("1.6", NumberData("1.5"), false) == Unchanged
    ensures SaveGate("1.6", "1.5") == Enabled
  {
    var a, b := [Some(1), Some(6)], [Some(1), Some(5)];
    assert ComparePieces(a, b) == 1 by {
      assert CompareFrom(a, b, 1, 2) == 1;
    }
    assert "1.6" != "1.5" by {
      assert "1.6"[2] != "1.5"[2];
    }
    NormalizeDigits2('1', '6');
    NormalizeDigits2('1', '5');
    CompareSpecOf("1.6", "1.5", a, b);
  }
}
