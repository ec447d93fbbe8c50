/** Semantic versions: text form, parsing and precedence (crates/deltaship-core/src/version.rs). */
module Versions {
  import opened Text

  datatype Version = Version(major: nat, minor: nat, patch: nat, pre: string, build: string)

  datatype Ordering = Less | Equal | Greater {
    function Flip(): Ordering {
      match this
      case Less => Greater
      case Equal => Equal
      case Greater => Less
    }
  }

  const U64_LIMIT: nat := 0x1_0000_0000_0000_0000

  /* Validity and text */

  predicate IsIdentChar(c: char) {
    IsDigit(c) || 'a' <= c <= 'z' || 'A' <= c <= 'Z' || c == '-'
  }

  predicate IsIdent(s: string) {
    s != "" && forall i | 0 <= i < |s| :: IsIdentChar(s[i])
  }

  /** Dot-separated identifiers; a numeric pre-release identifier has no leading zeros. */
  predicate IsPre(s: string) {
    forall id | id in Split(s, '.') :: IsIdent(id) && (AllDigits(id) ==> IsNumeral(id))
  }

  predicate IsBuild(s: string) {
    forall id | id in Split(s, '.') :: IsIdent(id)
  }

  predicate IsValid(v: Version) {
    && v.major < U64_LIMIT && v.minor < U64_LIMIT && v.patch < U64_LIMIT
    && (v.pre != "" ==> IsPre(v.pre))
    && (v.build != "" ==> IsBuild(v.build))
  }

  function CoreText(v: Version): string {
    Join([Numeral(v.major), Numeral(v.minor), Numeral(v.patch)], '.')
  }

  function ReleaseText(v: Version): string {
    CoreText(v) + if v.pre == "" then "" else "-" + v.pre
  }

  /** The `Display` form: core, `-pre` and `+build`. */
  function Show(v: Version): string {
    ReleaseText(v) + if v.build == "" then "" else "+" + v.build
  }

  function ParseCore(core: string, pre: string, build: string): (r: Option<Version>) {
    var parts := Split(core, '.');
    if |parts| != 3 || !(forall p | p in parts :: IsNumeral(p)) then None
    else
      assert forall i | 0 <= i < 3 :: parts[i] in parts;
      var v := Version(NumeralValue(parts[0]), NumeralValue(parts[1]), NumeralValue(parts[2]), pre, build);
      if v.major < U64_LIMIT && v.minor < U64_LIMIT && v.patch < U64_LIMIT then Some(v) else None
  }

  /** The `FromStr` form. */
  function Parse(s: string): (r: Option<Version>) {
    var release := Before(s, '+');
    var build := if '+' in s then After(s, '+') else "";
    var core := Before(release, '-');
    var pre := if '-' in release then After(release, '-') else "";
    if '+' in s && !IsBuild(build) then None
    else if '-' in release && !IsPre(pre) then None
    else ParseCore(core, pre, build)
  }

  lemma CoreTextShape(v: Version)
    ensures '-' !in CoreText(v) && '+' !in CoreText(v)
    ensures Split(CoreText(v), '.') == [Numeral(v.major), Numeral(v.minor), Numeral(v.patch)]
    ensures CoreText(v) != "" && IsDigit(CoreText(v)[0])
  {
    var parts := [Numeral(v.major), Numeral(v.minor), Numeral(v.patch)];
    var core := CoreText(v);
    assert core == parts[0] + ['.'] + (parts[1] + ['.'] + parts[2]) by {
      assert Join(parts[1..], '.') == parts[1] + ['.'] + parts[2] by {
        assert parts[1..][1..] == [parts[2]];
      }
    }
    assert forall p | p in parts :: IsNumeral(p);
    SplitJoin(parts, '.');
  }

  lemma {:induction false} PieceWith(s: string, c: char, x: char) returns (i: nat)
    requires x in s && x != c
    ensures i < |Split(s, c)| && x in Split(s, c)[i]
    decreases |s|
  {
    if s[0] == x {
      i := 0;
    } else {
      assert x in s[1..];
      var j := PieceWith(s[1..], c, x);
      i := if s[0] == c then j + 1 else j;
    }
  }

  lemma PiecesCover(s: string, c: char, x: char)
    requires x in s && x != c
    ensures exists p | p in Split(s, c) :: x in p
  {
    var i := PieceWith(s, c, x);
    assert Split(s, c)[i] in Split(s, c);
  }

  lemma BuildShape(s: string)
    requires IsBuild(s)
    ensures s != "" && '+' !in s
    ensures forall c | c in s :: IsIdentChar(c) || c == '.'
  {
    forall c | c in s ensures IsIdentChar(c) || c == '.' {
      if c != '.' {
        PiecesCover(s, '.', c);
      }
    }
    if s == "" {
      assert "" in Split(s, '.');
    }
  }

  lemma CoreTextEnds(v: Version)
    ensures CoreText(v) != "" && IsDigit(CoreText(v)[0]) && IsDigit(CoreText(v)[|CoreText(v)| - 1])
  {
    CoreTextShape(v);
    var parts := [Numeral(v.major), Numeral(v.minor), Numeral(v.patch)];
    assert parts == [parts[0], parts[1]] + [parts[2]];
    JoinConcat([parts[0], parts[1]], [parts[2]], '.');
  }

  lemma ShowEnds(v: Version)
    requires IsValid(v)
    ensures Show(v) != "" && IsDigit(Show(v)[0]) && !IsWhitespace(Show(v)[|Show(v)| - 1])
  {
    CoreTextEnds(v);
    if v.build != "" {
      BuildShape(v.build);
      assert v.build[|v.build| - 1] in v.build;
    } else if v.pre != "" {
      BuildShape(v.pre);
      assert v.pre[|v.pre| - 1] in v.pre;
    }
  }

  lemma {:induction false} ShowChars(v: Version)
    requires IsValid(v)
    ensures forall i | 0 <= i < |Show(v)| :: IsIdentChar(Show(v)[i]) || Show(v)[i] == '.' || Show(v)[i] == '+'
  {
    CoreChars(v);
    if v.build != "" {
      BuildShape(v.build);
      assert forall i | 0 <= i < |v.build| :: v.build[i] in v.build;
    }
    if v.pre != "" {
      BuildShape(v.pre);
      assert forall i | 0 <= i < |v.pre| :: v.pre[i] in v.pre;
    }
  }

  lemma CoreChars(v: Version)
    ensures forall i | 0 <= i < |CoreText(v)| :: IsDigit(CoreText(v)[i]) || CoreText(v)[i] == '.'
  {
    var a, b, c := Numeral(v.major), Numeral(v.minor), Numeral(v.patch);
    assert [a, b, c] == [a, b] + [c] && [a, b] == [a] + [b];
    JoinConcat([a, b], [c], '.');
    JoinConcat([a], [b], '.');
    assert CoreText(v) == a + ['.'] + b + ['.'] + c;
  }

  lemma CutPre(v: Version)
    requires IsValid(v)
    ensures '+' !in ReleaseText(v)
    ensures '-' in ReleaseText(v) <==> v.pre != ""
    ensures Before(ReleaseText(v), '-') == CoreText(v)
    ensures v.pre != "" ==> After(ReleaseText(v), '-') == v.pre
  {
    var core := CoreText(v);
    CoreTextShape(v);
    BeforeAfterConcat(core, '-', v.pre);
    if v.pre != "" {
      BuildShape(v.pre);
      assert ReleaseText(v) == core + ['-'] + v.pre;
    } else {
      assert ReleaseText(v) == core;
    }
  }

  lemma CutBuild(v: Version)
    requires IsValid(v)
    ensures '+' in Show(v) <==> v.build != ""
    ensures Before(Show(v), '+') == ReleaseText(v)
    ensures v.build != "" ==> After(Show(v), '+') == v.build
  {
    var release := ReleaseText(v);
    CutPre(v);
    BeforeAfterConcat(release, '+', v.build);
    if v.build != "" {
      assert Show(v) == release + ['+'] + v.build;
    } else {
      assert Show(v) == release;
    }
  }

  /** Printing and parsing are inverse: every valid version is the parse of its own text. */
  lemma ParseShow(v: Version)
    requires IsValid(v)
    ensures Parse(Show(v)) == Some(v)
  {
    CutBuild(v);
    CutPre(v);
    ParseCoreShow(v);
  }

  lemma ParseCoreShow(v: Version)
    requires IsValid(v)
    ensures ParseCore(CoreText(v), v.pre, v.build) == Some(v)
  {
    CoreTextShape(v);
    ValueOfNumeral(v.major);
    ValueOfNumeral(v.minor);
    ValueOfNumeral(v.patch);
  }

  lemma CoreTextOfParse(core: string, pre: string, build: string)
    requires ParseCore(core, pre, build).Some?
    ensures CoreText(ParseCore(core, pre, build).value) == core
  {
    var parts := Split(core, '.');
    assert parts[0] in parts && parts[1] in parts && parts[2] in parts;
    NumeralOfValue(parts[0]);
    NumeralOfValue(parts[1]);
    NumeralOfValue(parts[2]);
    JoinSplit(core, '.');
    assert parts == [parts[0], parts[1], parts[2]];
  }

  lemma ReleaseTextOfParse(release: string, pre: string, build: string)
    requires pre == if '-' in release then After(release, '-') else ""
    requires '-' in release ==> IsPre(pre)
    requires ParseCore(Before(release, '-'), pre, build).Some?
    ensures ReleaseText(ParseCore(Before(release, '-'), pre, build).value) == release
  {
    CoreTextOfParse(Before(release, '-'), pre, build);
    if '-' in release {
      BuildShape(pre);
    }
    Reattach(release, '-', pre);
  }

  lemma ParsePieces(s: string)
    requires Parse(s).Some?
    ensures var v, release := Parse(s).value, Before(s, '+');
            && v.build == (if '+' in s then After(s, '+') else "")
            && v.pre == (if '-' in release then After(release, '-') else "")
            && ('+' in s ==> IsBuild(v.build))
            && ('-' in release ==> IsPre(v.pre))
            && ParseCore(Before(release, '-'), v.pre, v.build) == Some(v)
            && v.major < U64_LIMIT && v.minor < U64_LIMIT && v.patch < U64_LIMIT
  {
  }

  lemma Reattach(s: string, mark: char, tail: string)
    requires tail == if mark in s then After(s, mark) else ""
    requires mark in s ==> tail != ""
    ensures Before(s, mark) + (if tail == "" then "" else [mark] + tail) == s
  {
    BeforeAfter(s, mark);
  }

  /** Conversely a text that parses is exactly the text of the version it parses to. */
  lemma ShowParse(s: string)
    requires Parse(s).Some?
    ensures IsValid(Parse(s).value)
    ensures Show(Parse(s).value) == s
  {
    ParsePieces(s);
    var v := Parse(s).value;
    ReleaseTextOfParse(Before(s, '+'), v.pre, v.build);
    if '+' in s {
      BuildShape(v.build);
    }
    Reattach(s, '+', v.build);
  }

  /* Precedence */

  function CompareNat(a: nat, b: nat): Ordering {
    if a < b then Less else if a == b then Equal else Greater
  }

  function CompareText(a: string, b: string): Ordering {
    if a == "" && b == "" then Equal
    else if a == "" then Less
    else if b == "" then Greater
    else if a[0] < b[0] then Less
    else if b[0] < a[0] then Greater
    else CompareText(a[1..], b[1..])
  }

  /** One pre-release identifier against another, as `semver::Prerelease` orders them. */
  function CompareIdent(a: string, b: string): Ordering {
    if AllDigits(a) && !AllDigits(b) then Less
    else if !AllDigits(a) && AllDigits(b) then Greater
    else if AllDigits(a) && |a| != |b| then CompareNat(|a|, |b|)
    else CompareText(a, b)
  }

  function CompareIdents(a: seq<string>, b: seq<string>): Ordering {
    if a == [] && b == [] then Equal
    else if a == [] then Less
    else if b == [] then Greater
    else
      match CompareIdent(a[0], b[0])
      case Equal => CompareIdents(a[1..], b[1..])
      case other => other
  }

  /** No pre-release ranks above any pre-release. */
  function ComparePre(a: string, b: string): Ordering {
    if a == "" && b != "" then Greater
    else if a != "" && b == "" then Less
    else if a == "" then Equal
    else CompareIdents(Split(a, '.'), Split(b, '.'))
  }

  function Compare(v: Version, w: Version): Ordering {
    if v.major != w.major then CompareNat(v.major, w.major)
    else if v.minor != w.minor then CompareNat(v.minor, w.minor)
    else if v.patch != w.patch then CompareNat(v.patch, w.patch)
    else ComparePre(v.pre, w.pre)
  }

  /** `PartialEq`: everything but the build metadata. */
  predicate Same(v: Version, w: Version) {
    v.major == w.major && v.minor == w.minor && v.patch == w.patch && v.pre == w.pre
  }

  ghost predicate TextLaws(a: string, b: string, c: string) {
    && (CompareText(a, b) == Equal <==> a == b)
    && CompareText(b, a) == CompareText(a, b).Flip()
    && (CompareText(a, b) != Greater && CompareText(b, c) != Greater ==> CompareText(a, c) != Greater)
  }

  lemma {:induction false} CompareTextLaws(a: string, b: string, c: string)
    ensures TextLaws(a, b, c)
    decreases |a| + |b| + |c|
  {
    if a != "" && b != "" && a[0] == b[0] {
      CompareTextLaws(a[1..], b[1..], if c == "" then "" else c[1..]);
      assert a == [a[0]] + a[1..] && b == [b[0]] + b[1..];
    }
  }

  lemma CompareIdentLaws(a: string, b: string, c: string)
    ensures CompareIdent(a, b) == Equal <==> a == b
    ensures CompareIdent(b, a) == CompareIdent(a, b).Flip()
    ensures CompareIdent(a, b) != Greater && CompareIdent(b, c) != Greater ==> CompareIdent(a, c) != Greater
  {
    CompareTextLaws(a, b, c);
  }

  lemma {:induction false} CompareIdentsLaws(a: seq<string>, b: seq<string>, c: seq<string>)
    ensures CompareIdents(a, b) == Equal <==> a == b
    ensures CompareIdents(b, a) == CompareIdents(a, b).Flip()
    ensures CompareIdents(a, b) != Greater && CompareIdents(b, c) != Greater ==> CompareIdents(a, c) != Greater
    decreases |a| + |b| + |c|
  {
    if a != [] && b != [] {
      CompareIdentLaws(a[0], b[0], if c == [] then "" else c[0]);
      assert a == [a[0]] + a[1..] && b == [b[0]] + b[1..];
      CompareIdentsLaws(a[1..], b[1..], if c == [] then [] else c[1..]);
      if c != [] {
        CompareIdentLaws(a[0], c[0], b[0]);
        CompareIdentLaws(b[0], c[0], a[0]);
      }
    }
  }

  lemma ComparePreLaws(a: string, b: string, c: string)
    ensures ComparePre(a, b) == Equal <==> a == b
    ensures ComparePre(b, a) == ComparePre(a, b).Flip()
    ensures ComparePre(a, b) != Greater && ComparePre(b, c) != Greater ==> ComparePre(a, c) != Greater
  {
    CompareIdentsLaws(Split(a, '.'), Split(b, '.'), Split(c, '.'));
    JoinSplit(a, '.');
    JoinSplit(b, '.');
  }

  lemma CompareLaws(u: Version, v: Version, w: Version)
    ensures Compare(u, v) == Equal <==> Same(u, v)
    ensures Compare(v, u) == Compare(u, v).Flip()
    ensures Compare(u, v) != Greater && Compare(v, w) != Greater ==> Compare(u, w) != Greater
  {
    ComparePreLaws(u.pre, v.pre, w.pre);
  }

  /** Version comparison is a total preorder whose `Equal` is `==`, so build metadata never matters. */
  lemma CompareTotalOrder(u: Version, v: Version, w: Version)
    ensures Compare(u, v) == Equal <==> Same(u, v)
    ensures Compare(v, u) == Compare(u, v).Flip()
    ensures Compare(u, v) != Greater && Compare(v, w) != Greater ==> Compare(u, w) != Greater
    ensures Compare(u, v) == Less && Compare(v, w) != Greater ==> Compare(u, w) == Less
    ensures Compare(u, v) != Greater && Compare(v, w) == Less ==> Compare(u, w) == Less
    ensures Same(v, w) ==> Compare(u, v) == Compare(u, w) && Compare(v, u) == Compare(w, u)
  {
    CompareLaws(u, v, w);
    CompareLaws(v, w, u);
    CompareLaws(w, u, v);
  }

  predicate Newer(v: Version, w: Version) {
    Compare(v, w) == Greater
  }

  /* Section 11 of SemVer 2.0.0, stated without recursion */

  /** The texts agree before position `k`, where `a` ends or has the smaller character. */
  ghost predicate FirstDiffers(a: string, b: string, k: nat) {
    k <= |a| && k < |b| && (forall i | 0 <= i < k :: a[i] == b[i]) && (k == |a| || a[k] < b[k])
  }

  ghost predicate LexicallyBefore(a: string, b: string) {
    exists k: nat :: FirstDiffers(a, b, k)
  }

  ghost predicate IdentBefore(a: string, b: string) {
    if AllDigits(a) && AllDigits(b) then NumeralValue(a) < NumeralValue(b)
    else if AllDigits(a) != AllDigits(b) then AllDigits(a)
    else LexicallyBefore(a, b)
  }

  /** The identifiers agree before position `k`, where `a` ends or has the lower one. */
  ghost predicate FirstRanksLower(a: seq<string>, b: seq<string>, k: nat) {
    k <= |a| && k < |b| && (forall i | 0 <= i < k :: a[i] == b[i]) && (k == |a| || IdentBefore(a[k], b[k]))
  }

  ghost predicate IdentsBefore(a: seq<string>, b: seq<string>) {
    exists k: nat :: FirstRanksLower(a, b, k)
  }

  ghost predicate Precedes(v: Version, w: Version) {
    || v.major < w.major
    || (v.major == w.major && v.minor < w.minor)
    || (v.major == w.major && v.minor == w.minor && v.patch < w.patch)
    || (v.major == w.major && v.minor == w.minor && v.patch == w.patch
        && v.pre != "" && (w.pre == "" || IdentsBefore(Split(v.pre, '.'), Split(w.pre, '.'))))
  }

  lemma FirstDiffersLater(a: string, b: string, k: nat)
    requires a != "" && b != "" && k > 0
    ensures FirstDiffers(a, b, k) <==> a[0] == b[0] && FirstDiffers(a[1..], b[1..], k - 1)
  {
    if a[0] == b[0] && FirstDiffers(a[1..], b[1..], k - 1) {
      forall i | 0 <= i < k ensures a[i] == b[i] {
        assert i > 0 ==> a[i] == a[1..][i - 1] && b[i] == b[1..][i - 1];
      }
    }
  }

  lemma LexicalStep(a: string, b: string)
    requires a != "" && b != ""
    ensures LexicallyBefore(a, b) <==> a[0] < b[0] || (a[0] == b[0] && LexicallyBefore(a[1..], b[1..]))
  {
    if a[0] < b[0] {
      assert FirstDiffers(a, b, 0);
    }
    if k: nat :| FirstDiffers(a, b, k) {
      if k > 0 {
        FirstDiffersLater(a, b, k);
      }
    }
    if a[0] == b[0] && LexicallyBefore(a[1..], b[1..]) {
      var j: nat :| FirstDiffers(a[1..], b[1..], j);
      FirstDiffersLater(a, b, j + 1);
    }
  }

  lemma {:induction false} CompareTextIsLexical(a: string, b: string)
    ensures CompareText(a, b) == Less <==> LexicallyBefore(a, b)
    decreases |a|
  {
    if a != "" && b != "" {
      LexicalStep(a, b);
      CompareTextIsLexical(a[1..], b[1..]);
    } else if a == "" && b != "" {
      assert FirstDiffers(a, b, 0);
    }
  }

  function Pow10(n: nat): (p: nat)
    ensures p >= 1
  {
    if n == 0 then 1 else 10 * Pow10(n - 1)
  }

  lemma {:induction false} ValueBelowPow(s: string)
    requires AllDigits(s)
    ensures NumeralValue(s) < Pow10(|s|)
  {
    if s != "" {
      ValueBelowPow(s[..|s| - 1]);
    }
  }

  lemma {:induction false} ValueFromHead(s: string)
    requires s != "" && AllDigits(s)
    ensures NumeralValue(s) == DigitValue(s[0]) * Pow10(|s| - 1) + NumeralValue(s[1..])
  {
    if |s| == 1 {
      assert NumeralValue(s[..0]) == 0;
    } else {
      var front := s[..|s| - 1];
      ValueFromHead(front);
      assert s[1..][..|s[1..]| - 1] == front[1..];
      TenTimes(DigitValue(s[0]), Pow10(|s| - 2));
    }
  }

  lemma TenTimes(d: int, p: nat)
    ensures d * (10 * p) == 10 * (d * p)
  {
  }

  lemma {:induction false} PowMonotone(m: nat, n: nat)
    requires m <= n
    ensures Pow10(m) <= Pow10(n)
  {
    if m < n {
      PowMonotone(m, n - 1);
    }
  }

  lemma {:induction false} ScaledBelow(x: nat, y: nat, p: nat)
    requires x < y
    ensures x * p + p <= y * p
  {
    if x + 1 < y {
      ScaledBelow(x, y - 1, p);
      assert y * p == (y - 1) * p + p;
    } else {
      assert y * p == (x + 1) * p == x * p + p;
    }
  }

  lemma {:induction false} SameLengthOrder(a: string, b: string)
    requires AllDigits(a) && AllDigits(b) && |a| == |b|
    ensures CompareText(a, b) == Less <==> NumeralValue(a) < NumeralValue(b)
    decreases |a|
  {
    if a != "" {
      ValueFromHead(a);
      ValueFromHead(b);
      ValueBelowPow(a[1..]);
      ValueBelowPow(b[1..]);
      var p, x, y := Pow10(|a| - 1), DigitValue(a[0]), DigitValue(b[0]);
      if x == y {
        SameLengthOrder(a[1..], b[1..]);
      } else if x < y {
        ScaledBelow(x, y, p);
      } else {
        ScaledBelow(y, x, p);
      }
    }
  }

  lemma ShorterIsSmaller(a: string, b: string)
    requires AllDigits(a) && IsNumeral(b) && 0 < |a| < |b|
    ensures NumeralValue(a) < NumeralValue(b)
  {
    ValueBelowPow(a);
    ValueFromHead(b);
    PowMonotone(|a|, |b| - 1);
    ScaledBelow(0, DigitValue(b[0]), Pow10(|b| - 1));
  }

  /** Numeric identifiers are compared by length and then as text, which is their numeric order. */
  lemma CompareIdentIsSpec(a: string, b: string)
    requires IsIdent(a) && IsIdent(b)
    requires (AllDigits(a) ==> IsNumeral(a)) && (AllDigits(b) ==> IsNumeral(b))
    ensures CompareIdent(a, b) == Less <==> IdentBefore(a, b)
  {
    if AllDigits(a) && AllDigits(b) {
      if |a| < |b| {
        ShorterIsSmaller(a, b);
      } else if |b| < |a| {
        ShorterIsSmaller(b, a);
      } else {
        SameLengthOrder(a, b);
      }
    } else {
      CompareTextIsLexical(a, b);
    }
  }

  ghost predicate AllIdents(a: seq<string>) {
    forall id | id in a :: IsIdent(id) && (AllDigits(id) ==> IsNumeral(id))
  }

  lemma RanksLowerLater(a: seq<string>, b: seq<string>, k: nat)
    requires a != [] && b != [] && k > 0
    ensures FirstRanksLower(a, b, k) <==> a[0] == b[0] && FirstRanksLower(a[1..], b[1..], k - 1)
  {
    if a[0] == b[0] && FirstRanksLower(a[1..], b[1..], k - 1) {
      forall i | 0 <= i < k ensures a[i] == b[i] {
        assert i > 0 ==> a[i] == a[1..][i - 1] && b[i] == b[1..][i - 1];
      }
    }
  }

  lemma IdentsBeforeStep(a: seq<string>, b: seq<string>)
    requires a != [] && b != []
    ensures IdentsBefore(a, b) <==> IdentBefore(a[0], b[0]) || (a[0] == b[0] && IdentsBefore(a[1..], b[1..]))
  {
    if IdentBefore(a[0], b[0]) {
      assert FirstRanksLower(a, b, 0);
    }
    if k: nat :| FirstRanksLower(a, b, k) {
      if k > 0 {
        RanksLowerLater(a, b, k);
      }
    }
    if a[0] == b[0] && IdentsBefore(a[1..], b[1..]) {
      var j: nat :| FirstRanksLower(a[1..], b[1..], j);
      RanksLowerLater(a, b, j + 1);
    }
  }

  lemma {:induction false} CompareIdentsIsSpec(a: seq<string>, b: seq<string>)
    requires AllIdents(a) && AllIdents(b)
    ensures CompareIdents(a, b) == Less <==> IdentsBefore(a, b)
    decreases |a|
  {
    if a == [] && b != [] {
      assert FirstRanksLower(a, b, 0);
    } else if a != [] && b != [] {
      CompareIdentIsSpec(a[0], b[0]);
      CompareIdentLaws(a[0], b[0], "");
      CompareIdentsIsSpec(a[1..], b[1..]);
      IdentsBeforeStep(a, b);
    }
  }

  /** The comparison is the precedence of section 11 of SemVer 2.0.0. */
  lemma CompareIsPrecedence(v: Version, w: Version)
    requires IsValid(v) && IsValid(w)
    ensures Compare(v, w) == Less <==> Precedes(v, w)
    ensures Compare(v, w) == Greater <==> Precedes(w, v)
  {
    CompareTotalOrder(v, w, v);
    if v.pre != "" && w.pre != "" {
      CompareIdentsIsSpec(Split(v.pre, '.'), Split(w.pre, '.'));
      CompareIdentsIsSpec(Split(w.pre, '.'), Split(v.pre, '.'));
    }
  }

  /* The text, written out */

  /** The core numbers separated by dots, then `-` and the pre-release if there is one, then `+` and the build
      metadata. */
  lemma ShowIs(v: Version)
    ensures Show(v) == Numeral(v.major) + "." + Numeral(v.minor) + "." + Numeral(v.patch)
                       + (if v.pre == "" then "" else "-" + v.pre) + (if v.build == "" then "" else "+" + v.build)
  {
    var a, b, c := Numeral(v.major), Numeral(v.minor), Numeral(v.patch);
    assert [a, b, c] == [a, b] + [c] && [a, b] == [a] + [b];
    JoinConcat([a, b], [c], '.');
    JoinConcat([a], [b], '.');
  }

  /** Identifiers are separated by dots, not empty, and of ASCII letters, digits and hyphens; a numeric one has no
      leading zero in a pre-release, and may have one in build metadata. */
  lemma PartsAre(s: string)
    ensures IsPre(s) <==>
            forall id | id in Split(s, '.') ::
              && id != "" && (forall i | 0 <= i < |id| :: IsLetterDigitHyphen(id[i]))
              && ((forall i | 0 <= i < |id| :: '0' <= id[i] <= '9') ==> |id| == 1 || id[0] != '0')
    ensures IsBuild(s) <==>
            forall id | id in Split(s, '.') :: id != "" && forall i | 0 <= i < |id| :: IsLetterDigitHyphen(id[i])
  {
  }

  predicate IsLetterDigitHyphen(c: char) {
    '0' <= c <= '9' || 'a' <= c <= 'z' || 'A' <= c <= 'Z' || c == '-'
  }

  /** Valid versions have 64-bit numbers and parts of those forms. */
  lemma ValidIs(v: Version)
    ensures IsValid(v) <==> && v.major < 0x1_0000_0000_0000_0000 && v.minor < 0x1_0000_0000_0000_0000
                            && v.patch < 0x1_0000_0000_0000_0000
                            && (v.pre == "" || IsPre(v.pre)) && (v.build == "" || IsBuild(v.build))
  {
  }
}
