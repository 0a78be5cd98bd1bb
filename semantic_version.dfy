/** `SemanticVersion`: a version string such as "1.2.3" read as a list of
    `int` parts, compared part by part with missing parts counting as 0.
    A Java `null` argument is `None`; exceptions are `Err` values. */
module SemVer {
  import opened Machine
  import opened Outcomes
  import opened StringUtils

  // ---------------------------------------------------------------------
  // Decimal text of integers (`Integer.valueOf`, `Integer.toString`)
  // ---------------------------------------------------------------------

  /** The regular-expression class `\d`, which without flags is ASCII only. */
  predicate IsDigit(c: char) {
    '0' <= c <= '9'
  }

  predicate AllDigits(s: string) {
    forall i :: 0 <= i < |s| ==> IsDigit(s[i])
  }

  function DigitChar(d: nat): char
    requires d < 10
  {
    ('0' as int + d) as char
  }

  /** The value of a string of decimal digits, most significant first. */
  function DigitsValue(s: string): nat
    requires AllDigits(s)
  {
    if |s| == 0 then 0 else DigitsValue(s[..|s| - 1]) * 10 + (s[|s| - 1] as int - '0' as int)
  }

  /** The shortest decimal text of `n` ("0" for zero). */
  function Decimal(n: nat): (s: string)
    ensures |s| >= 1 && AllDigits(s)
  {
    if n < 10 then [DigitChar(n)] else Decimal(n / 10) + [DigitChar(n % 10)]
  }

  lemma {:induction false} DecimalValue(n: nat)
    ensures DigitsValue(Decimal(n)) == n
  {
    if n >= 10 {
      var s := Decimal(n);
      assert s[..|s| - 1] == Decimal(n / 10);
      DecimalValue(n / 10);
    }
  }

  /** `Integer.toString`: a '-' before the digits of a negative value. */
  function IntToString(x: int32): (s: string)
    ensures |s| >= 1
    ensures x >= 0 ==> AllDigits(s)
    ensures x < 0 ==> s[0] == '-' && AllDigits(s[1..])
  {
    if x < 0 then "-" + Decimal(-(x as int)) else Decimal(x)
  }

  /** `Integer.valueOf(String)`: an optional sign, at least one decimal digit
      and a value within `int` range; `None` is a NumberFormatException. */
  function ParseInt(s: string): (r: Option<int32>)
    ensures r.Some? ==> |s| >= 1
    ensures r.Some? && IsDigit(s[0]) ==> r.value >= 0
  {
    if |s| == 0 then None
    else if s[0] == '-' || s[0] == '+' then
      if |s| == 1 || !AllDigits(s[1..]) then None
      else
        var m: int := if s[0] == '-' then -(DigitsValue(s[1..]) as int) else DigitsValue(s[1..]);
        if INT_MIN <= m <= INT_MAX then Some(m) else None
    else if !AllDigits(s) then None
    else if DigitsValue(s) <= INT_MAX then Some(DigitsValue(s)) else None
  }

  /** `Integer.valueOf` reads back what `Integer.toString` writes. */
  lemma ParseIntToString(x: int32)
    ensures ParseInt(IntToString(x)) == Some(x)
  {
    var s := IntToString(x);
    if x < 0 {
      assert s[1..] == Decimal(-(x as int));
      DecimalValue(-(x as int));
    } else {
      DecimalValue(x);
    }
  }

  // ---------------------------------------------------------------------
  // Splitting at "\.(?=\d)" (`Pattern.split`)
  // ---------------------------------------------------------------------

  /** A match of the split pattern at `i`: a '.' followed by a digit. */
  predicate SplitsAt(s: string, i: int) {
    0 <= i && i + 1 < |s| && s[i] == '.' && IsDigit(s[i + 1])
  }

  /** The first match at or after `from`, or -1. */
  function FirstSplit(s: string, from: nat): (r: int)
    requires from <= |s|
    ensures r == -1 || (from <= r < |s| && SplitsAt(s, r))
    ensures forall i :: from <= i < (if r == -1 then |s| else r) ==> !SplitsAt(s, i)
    decreases |s| - from
  {
    if from == |s| then -1 else if SplitsAt(s, from) then from else FirstSplit(s, from + 1)
  }

  /** `Pattern.split`: the pieces between matches. Each match is followed by a
      digit, so no piece but the first can be empty and no trailing empty
      piece arises; a leading '.' before a digit gives an empty first piece. */
  function Split(s: string): (pieces: seq<string>)
    ensures |pieces| >= 1
    ensures |s| >= 1 && s[0] != '.' ==> |pieces[0]| >= 1 && pieces[0][0] == s[0]
    ensures forall k :: 1 <= k < |pieces| ==> |pieces[k]| >= 1 && IsDigit(pieces[k][0])
    decreases |s|
  {
    var m := FirstSplit(s, 0);
    if m < 0 then [s] else [s[..m]] + Split(s[m + 1..])
  }

  /** `Collectors.joining(".")`. */
  function JoinDots(pieces: seq<string>): string {
    if |pieces| == 0 then ""
    else if |pieces| == 1 then pieces[0]
    else pieces[0] + "." + JoinDots(pieces[1..])
  }

  /** Splitting undoes joining when no piece holds a '.' and every piece but
      the first starts with a digit. */
  lemma {:induction false} SplitJoin(pieces: seq<string>)
    requires |pieces| >= 1
    requires forall k, j :: 0 <= k < |pieces| && 0 <= j < |pieces[k]| ==> pieces[k][j] != '.'
    requires forall k :: 1 <= k < |pieces| ==> |pieces[k]| >= 1 && IsDigit(pieces[k][0])
    ensures Split(JoinDots(pieces)) == pieces
    decreases |pieces|
  {
    var s := JoinDots(pieces);
    if |pieces| == 1 {
      assert FirstSplit(s, 0) == -1;
    } else {
      var tail := pieces[1..];
      var rest := JoinDots(tail);
      assert s == pieces[0] + "." + rest;
      JoinStartsWith(tail);
      SplitAtFirstDot(pieces[0], rest);
      SplitJoin(tail);
    }
  }

  /** A join of pieces begins with the first piece's first character. */
  lemma JoinStartsWith(pieces: seq<string>)
    requires |pieces| >= 1 && |pieces[0]| >= 1
    ensures |JoinDots(pieces)| >= 1 && JoinDots(pieces)[0] == pieces[0][0]
  {
    if |pieces| > 1 {
      assert JoinDots(pieces) == pieces[0] + "." + JoinDots(pieces[1..]);
    }
  }

  /** A '.'-free head, a '.' and a text starting with a digit split first at
      that '.'. */
  lemma SplitAtFirstDot(head: string, rest: string)
    requires forall j :: 0 <= j < |head| ==> head[j] != '.'
    requires |rest| >= 1 && IsDigit(rest[0])
    ensures Split(head + "." + rest) == [head] + Split(rest)
  {
    var s := head + "." + rest;
    var m := |head|;
    assert SplitsAt(s, m);
    forall i | 0 <= i < m
      ensures !SplitsAt(s, i)
    {
      assert s[i] == head[i];
    }
    assert FirstSplit(s, 0) == m;
    assert s[..m] == head;
    assert s[m + 1..] == rest;
  }

  /** Every character of a join is a digit or '.' when every piece's is. */
  lemma {:induction false} JoinDigitsDots(pieces: seq<string>)
    requires forall k, j :: 0 <= k < |pieces| && 0 <= j < |pieces[k]| ==> IsDigit(pieces[k][j])
    ensures forall i :: 0 <= i < |JoinDots(pieces)| ==> IsDigit(JoinDots(pieces)[i]) || JoinDots(pieces)[i] == '.'
    decreases |pieces|
  {
    if |pieces| > 1 {
      var rest := JoinDots(pieces[1..]);
      JoinDigitsDots(pieces[1..]);
      var s := JoinDots(pieces);
      assert s == pieces[0] + "." + rest;
      forall i | 0 <= i < |s|
        ensures IsDigit(s[i]) || s[i] == '.'
      {
        if i < |pieces[0]| {
          assert s[i] == pieces[0][i];
        } else if i > |pieces[0]| {
          assert s[i] == rest[i - |pieces[0]| - 1];
        }
      }
    }
  }

  /** `JoinDots(pieces + [x])` adds `"." + x` at the end. */
  lemma {:induction false} JoinDotsSnoc(pieces: seq<string>, x: string)
    requires |pieces| >= 1
    ensures JoinDots(pieces + [x]) == JoinDots(pieces) + "." + x
    decreases |pieces|
  {
    if |pieces| > 1 {
      assert (pieces + [x])[1..] == pieces[1..] + [x];
      JoinDotsSnoc(pieces[1..], x);
    }
  }

  // ---------------------------------------------------------------------
  // Parts
  // ---------------------------------------------------------------------

  /** The parts a constructed version holds: at least one; a last part that
      is not 0 when there are several; parts after the first non-negative
      (they start after a '.' that precedes a digit). */
  predicate Canonical(p: seq<int32>) {
    && |p| >= 1
    && (|p| > 1 ==> p[|p| - 1] != 0)
    && forall k :: 1 <= k < |p| ==> p[k] >= 0
  }

  type VersionParts = p: seq<int32> | Canonical(p) witness [0]

  datatype SemanticVersion = SemanticVersion(versionParts: VersionParts)

  /** Some piece is not a number. */
  predicate SomeNotNumeric(pieces: seq<string>) {
    exists k :: 0 <= k < |pieces| && ParseInt(pieces[k]).None?
  }

  /** `Integer.valueOf` on every piece; `None` when some piece is not a number. */
  function ParseAll(pieces: seq<string>): (r: Option<seq<int32>>)
    ensures r.Some? ==> |r.value| == |pieces| && forall k :: 0 <= k < |pieces| ==> ParseInt(pieces[k]) == Some(r.value[k])
    ensures r.None? ==> SomeNotNumeric(pieces)
  {
    if |pieces| == 0 then Some([])
    else
      match ParseAll(pieces[..|pieces| - 1])
      case None => None
      case Some(init) =>
        match ParseInt(pieces[|pieces| - 1])
        case None => None
        case Some(x) => Some(init + [x])
  }

  /** The zero parts at the end, other than the first part, removed. */
  function StripTrailingZeros(parts: seq<int32>): (r: seq<int32>)
    ensures |r| <= |parts| && r == parts[..|r|]
    ensures |parts| >= 1 ==> |r| >= 1
    ensures |r| > 1 ==> r[|r| - 1] != 0
    ensures forall k :: |r| <= k < |parts| ==> parts[k] == 0
  {
    if |parts| > 1 && parts[|parts| - 1] == 0 then StripTrailingZeros(parts[..|parts| - 1]) else parts
  }

  /** What `tokenize` computes: split, parse every piece, drop trailing zeros.
      A piece that is not a number makes it throw a RuntimeException. */
  function Tokenized(version: string): (r: Result<seq<int32>>)
    ensures r.Err? <==> SomeNotNumeric(Split(version))
    ensures r.Err? ==> r.error == Runtime
    ensures r.Ok? ==> Canonical(r.value)
  {
    match ParseAll(Split(version))
    case None => Err(Runtime)
    case Some(parts) =>
      ParsedNonNegative(version, parts);
      Ok(StripTrailingZeros(parts))
  }

  /** Only the first piece can carry a sign: the others start with a digit. */
  lemma ParsedNonNegative(version: string, parts: seq<int32>)
    requires ParseAll(Split(version)) == Some(parts)
    ensures forall k :: 1 <= k < |parts| ==> parts[k] >= 0
  {
    var pieces := Split(version);
    forall k | 1 <= k < |parts|
      ensures parts[k] >= 0
    {
      assert ParseInt(pieces[k]) == Some(parts[k]);
    }
  }

  /** `tokenize`: parse each piece into a list, then remove trailing zero
      parts while more than one part remains. */
  method Tokenize(version: string) returns (r: Result<seq<int32>>)
    ensures r == Tokenized(version)
  {
    var pieces := Split(version);
    var parts: seq<int32> := [];
    var k := 0;
    while k < |pieces|
      invariant 0 <= k <= |pieces|
      invariant ParseAll(pieces[..k]) == Some(parts)
    {
      var n := ParseInt(pieces[k]);
      if n.None? {
        return Err(Runtime);
      }
      assert pieces[..k + 1][..k] == pieces[..k];
      parts := parts + [n.value];
      k := k + 1;
    }
    assert pieces[..k] == pieces;
    parts := RemoveTrailingZeros(parts);
    r := Ok(parts);
  }

  /** The loop at the end of `tokenize`: remove the last part while it is 0
      and is not the first. */
  method RemoveTrailingZeros(parsed: seq<int32>) returns (parts: seq<int32>)
    requires |parsed| >= 1
    ensures parts == StripTrailingZeros(parsed)
  {
    parts := parsed;
    var i := |parts| - 1;
    while i > 0 && parts[i] == 0
      invariant 0 <= i == |parts| - 1
      invariant StripTrailingZeros(parts) == StripTrailingZeros(parsed)
    {
      assert parts[..i] + parts[i + 1..] == parts[..|parts| - 1];
      parts := parts[..i] + parts[i + 1..];
      i := i - 1;
    }
  }

  // ---------------------------------------------------------------------
  // Construction
  // ---------------------------------------------------------------------

  /** `String.replace(char, char)`. */
  function Replace(s: string, from: char, to: char): (r: string)
    ensures |r| == |s|
    ensures forall i :: 0 <= i < |s| ==> r[i] == if s[i] == from then to else s[i]
  {
    if |s| == 0 then [] else Replace(s[..|s| - 1], from, to) + [if s[|s| - 1] == from then to else s[|s| - 1]]
  }

  /** `String.indexOf`: the first index of `c`, or -1. */
  function IndexOf(s: string, c: char): (r: int)
    ensures r == -1 || (0 <= r < |s| && s[r] == c)
    ensures forall i :: 0 <= i < (if r == -1 then |s| else r) ==> s[i] != c
  {
    if |s| == 0 then -1
    else if s[0] == c then 0
    else var t := IndexOf(s[1..], c); if t == -1 then -1 else t + 1
  }

  /** '_' read as '.', then everything from the first '-' dropped unless that
      '-' is the first character. */
  function Normalized(version: string): (r: string)
    ensures |r| <= |version| && r == Replace(version, '_', '.')[..|r|]
    ensures forall i :: 0 <= i < |r| ==> r[i] != '_'
    ensures |version| >= 1 && version[0] != '-' ==> forall i :: 0 <= i < |r| ==> r[i] != '-'
  {
    var n := Replace(version, '_', '.');
    var dash := IndexOf(n, '-');
    if dash > 0 then n[..dash] else n
  }

  /** What the constructor computes. */
  function FromVersion(version: Option<string>): (r: Result<SemanticVersion>)
    ensures (r.Err? && r.error == IllegalArgument) <==> IsEmpty(version) || ContainsWhitespace(version.value)
    ensures r.Err? ==> r.error == IllegalArgument || r.error == Runtime
  {
    if IsEmpty(version) || ContainsWhitespace(version.value) then Err(IllegalArgument)
    else
      match Tokenized(Normalized(version.value))
      case Err(e) => Err(e)
      case Ok(parts) => Ok(SemanticVersion(parts))
  }

  /** The constructor `SemanticVersion(String)` (and `fromVersion`). */
  method New(version: Option<string>) returns (r: Result<SemanticVersion>)
    ensures r == FromVersion(version)
  {
    if IsEmpty(version) {
      return Err(IllegalArgument);
    } else if ContainsWhitespace(version.value) {
      return Err(IllegalArgument);
    }
    var normalized := Replace(version.value, '_', '.');
    var dash := IndexOf(normalized, '-');
    if dash > 0 {
      normalized := normalized[..dash];
    }
    var parts := Tokenize(normalized);
    if parts.Err? {
      return Err(parts.error);
    }
    r := Ok(SemanticVersion(parts.value));
  }

  /** `toString` / `getVersion`: the parts joined by '.'. */
  function PartStrings(p: seq<int32>): (r: seq<string>)
    ensures |r| == |p| && forall k :: 0 <= k < |p| ==> r[k] == IntToString(p[k])
  {
    seq(|p|, k requires 0 <= k < |p| => IntToString(p[k]))
  }

  function ToString(v: SemanticVersion): (s: string)
    ensures |s| >= 1
    ensures forall i :: 0 <= i < |s| ==> IsDigit(s[i]) || s[i] == '.' || (i == 0 && s[i] == '-')
  {
    PartsText(v.versionParts);
    JoinDots(PartStrings(v.versionParts))
  }

  /** The text of parts whose later entries are non-negative is made of
      digits, '.' and at most a leading '-'. */
  lemma PartsText(p: seq<int32>)
    requires |p| >= 1 && forall k :: 1 <= k < |p| ==> p[k] >= 0
    ensures var s := JoinDots(PartStrings(p));
      && |s| >= 1
      && forall i :: 0 <= i < |s| ==> IsDigit(s[i]) || s[i] == '.' || (i == 0 && s[i] == '-')
  {
    var ps := PartStrings(p);
    var head := IntToString(p[0]);
    IntChars(p[0]);
    if |p| > 1 {
      var tail := ps[1..];
      forall k, j | 0 <= k < |tail| && 0 <= j < |tail[k]|
        ensures IsDigit(tail[k][j])
      {
        assert tail[k] == IntToString(p[k + 1]);
      }
      JoinDigitsDots(tail);
      assert JoinDots(ps) == head + "." + JoinDots(tail);
      HeadDotRest(head, JoinDots(tail));
    } else {
      assert JoinDots(ps) == head;
    }
  }

  /** Every character of an `Integer.toString` text is a digit, but for a
      leading '-'. */
  lemma IntChars(x: int32)
    ensures forall i :: 0 <= i < |IntToString(x)| ==>
      IsDigit(IntToString(x)[i]) || (i == 0 && IntToString(x)[i] == '-')
  {
    var s := IntToString(x);
    if x < 0 {
      forall i | 0 < i < |s|
        ensures IsDigit(s[i])
      {
        assert s[i] == s[1..][i - 1];
      }
    }
  }

  /** The characters of `head + "." + rest`, given those of both parts. */
  lemma HeadDotRest(head: string, rest: string)
    requires forall i :: 0 <= i < |head| ==> IsDigit(head[i]) || (i == 0 && head[i] == '-')
    requires forall i :: 0 <= i < |rest| ==> IsDigit(rest[i]) || rest[i] == '.'
    ensures var s := head + "." + rest;
      forall i :: 0 <= i < |s| ==> IsDigit(s[i]) || s[i] == '.' || (i == 0 && s[i] == '-')
  {
    var s := head + "." + rest;
    forall i | 0 <= i < |s|
      ensures IsDigit(s[i]) || s[i] == '.' || (i == 0 && s[i] == '-')
    {
      if i < |head| {
        assert s[i] == head[i];
      } else if i > |head| {
        assert s[i] == rest[i - |head| - 1];
      }
    }
  }

  /** Text made of digits, '.' and at most a leading '-' passes the
      constructor's checks and normalisation unchanged. */
  lemma PlainText(s: string)
    requires |s| >= 1
    requires forall i :: 0 <= i < |s| ==> IsDigit(s[i]) || s[i] == '.' || (i == 0 && s[i] == '-')
    ensures !IsEmpty(Some(s)) && !ContainsWhitespace(s) && Normalized(s) == s
  {
    assert Replace(s, '_', '.') == s;
    assert IndexOf(s, '-') <= 0;
  }

  /** The text of each part is a valid split piece. */
  lemma PartPieces(p: seq<int32>)
    requires |p| >= 1 && forall k :: 1 <= k < |p| ==> p[k] >= 0
    ensures Split(JoinDots(PartStrings(p))) == PartStrings(p)
  {
    var ps := PartStrings(p);
    forall k, j | 0 <= k < |ps| && 0 <= j < |ps[k]|
      ensures ps[k][j] != '.'
    {
      assert ps[k] == IntToString(p[k]);
      if p[k] < 0 && j > 0 {
        assert ps[k][j] == ps[k][1..][j - 1];
      }
    }
    SplitJoin(ps);
  }

  /** Parsing the text of each part gives the parts. */
  lemma ParsePartStrings(p: seq<int32>)
    ensures ParseAll(PartStrings(p)) == Some(p)
  {
    var ps := PartStrings(p);
    forall k | 0 <= k < |ps|
      ensures ParseInt(ps[k]) == Some(p[k])
    {
      ParseIntToString(p[k]);
    }
    var r := ParseAll(ps);
    assert r.Some?;
    assert r.value == p;
  }

  /** Reading back the text of parts whose later entries are non-negative
      gives those parts with their trailing zeros removed. */
  lemma ReadText(p: seq<int32>)
    requires |p| >= 1 && forall k :: 1 <= k < |p| ==> p[k] >= 0
    ensures var r := FromVersion(Some(JoinDots(PartStrings(p))));
      r.Ok? && r.value.versionParts == StripTrailingZeros(p)
  {
    var s := JoinDots(PartStrings(p));
    PartsText(p);
    PlainText(s);
    PartPieces(p);
    ParsePartStrings(p);
    assert Tokenized(s) == Ok(StripTrailingZeros(p));
  }

  /** `new SemanticVersion(v.toString())` has the parts of `v`. */
  lemma ToStringRoundTrip(v: SemanticVersion)
    ensures FromVersion(Some(ToString(v))) == Ok(v)
  {
    var p := v.versionParts;
    ReadText(p);
    StripsNothing(p);
  }

  /** A trailing ".0" changes nothing: "1.2.0" and "1.2" have the same parts. */
  lemma TrailingZeroIgnored(v: SemanticVersion)
    ensures FromVersion(Some(ToString(v) + ".0")) == Ok(v)
  {
    var p := v.versionParts;
    var q := p + [0];
    assert IntToString(0) == "0";
    assert PartStrings(q) == PartStrings(p) + ["0"];
    JoinDotsSnoc(PartStrings(p), "0");
    assert JoinDots(PartStrings(q)) == ToString(v) + ".0";
    ReadText(q);
    assert StripTrailingZeros(q) == StripTrailingZeros(p);
    StripsNothing(p);
  }

  /** Constructed parts have no trailing zeros left to remove. */
  lemma StripsNothing(p: VersionParts)
    ensures StripTrailingZeros(p) == p
  {
  }

  /** '_' is read as '.'. */
  lemma UnderscoreIsDot(a: string, b: string)
    ensures FromVersion(Some(a + "_" + b)) == FromVersion(Some(a + "." + b))
  {
    var s, t := a + "_" + b, a + "." + b;
    forall i | 0 <= i < |s|
      ensures IsWhitespace(s[i]) == IsWhitespace(t[i])
    {
      if i != |a| {
        assert s[i] == t[i];
      }
    }
    assert ContainsWhitespace(s) == ContainsWhitespace(t);
    assert Replace(s, '_', '.') == Replace(t, '_', '.');
    assert Normalized(s) == Normalized(t);
  }

  /** A qualifier after a '-' that is not the first character is dropped. */
  lemma QualifierDropped(a: string, q: string)
    requires |a| >= 1 && forall i :: 0 <= i < |a| ==> a[i] != '-'
    requires !ContainsWhitespace(a + "-" + q)
    ensures FromVersion(Some(a + "-" + q)) == FromVersion(Some(a))
  {
    var s := a + "-" + q;
    forall i | 0 <= i < |a|
      ensures !IsWhitespace(a[i])
    {
      assert s[i] == a[i];
    }
    var n := Replace(s, '_', '.');
    forall i | 0 <= i < |a|
      ensures n[i] != '-'
    {
      assert s[i] == a[i];
    }
    assert n[|a|] == '-';
    assert IndexOf(n, '-') == |a|;
    assert n[..|a|] == Replace(a, '_', '.');
    assert IndexOf(Replace(a, '_', '.'), '-') == -1;
  }

  // ---------------------------------------------------------------------
  // Ordering, equality and hashing
  // ---------------------------------------------------------------------

  /** `getOrZero`. */
  function GetOrZero(elements: seq<int32>, i: nat): int32 {
    if i < |elements| then elements[i] else 0
  }

  /** `Integer.compareTo`. */
  function IntCompare(x: int32, y: int32): int {
    if x < y then -1 else if x == y then 0 else 1
  }

  /** The comparison of positions `i` up to `n`: the first difference decides. */
  function CompareFrom(a: seq<int32>, b: seq<int32>, i: nat, n: nat): (c: int)
    ensures -1 <= c <= 1
    decreases n - i
  {
    if i >= n then 0
    else
      var d := IntCompare(GetOrZero(a, i), GetOrZero(b, i));
      if d != 0 then d else CompareFrom(a, b, i + 1, n)
  }

  /** The result of `compareTo` on two versions' parts. */
  function Compare(a: seq<int32>, b: seq<int32>): int {
    CompareFrom(a, b, 0, Max(|a|, |b|))
  }

  /** `compareTo`: 1 for `null`; otherwise the index loop over the longer
      part list. */
  method CompareTo(self: SemanticVersion, o: Option<SemanticVersion>) returns (compared: int32)
    ensures o.None? ==> compared == 1
    ensures o.Some? ==> compared == Compare(self.versionParts, o.value.versionParts)
  {
    if o.None? {
      return 1;
    }
    var parts1, parts2 := self.versionParts, o.value.versionParts;
    var largestNumberOfParts := Max(|parts1|, |parts2|);
    var i := 0;
    while i < largestNumberOfParts
      invariant 0 <= i <= largestNumberOfParts
      invariant CompareFrom(parts1, parts2, i, largestNumberOfParts) == Compare(parts1, parts2)
    {
      var c := IntCompare(GetOrZero(parts1, i), GetOrZero(parts2, i));
      if c != 0 {
        return c;
      }
      i := i + 1;
    }
    return 0;
  }

  lemma {:induction false} CompareFromZero(a: seq<int32>, b: seq<int32>, i: nat, n: nat)
    ensures CompareFrom(a, b, i, n) == 0 <==> forall k :: i <= k < n ==> GetOrZero(a, k) == GetOrZero(b, k)
    decreases n - i
  {
    if i < n {
      CompareFromZero(a, b, i + 1, n);
    }
  }

  lemma {:induction false} CompareFromSwap(a: seq<int32>, b: seq<int32>, i: nat, n: nat)
    ensures CompareFrom(a, b, i, n) == -CompareFrom(b, a, i, n)
    decreases n - i
  {
    if i < n {
      CompareFromSwap(a, b, i + 1, n);
    }
  }

  lemma {:induction false} CompareFromTrans(a: seq<int32>, b: seq<int32>, c: seq<int32>, i: nat, n: nat)
    requires CompareFrom(a, b, i, n) <= 0 && CompareFrom(b, c, i, n) <= 0
    ensures CompareFrom(a, c, i, n) <= 0
    ensures CompareFrom(a, c, i, n) == 0 ==> CompareFrom(a, b, i, n) == 0 && CompareFrom(b, c, i, n) == 0
    decreases n - i
  {
    if i < n && GetOrZero(a, i) == GetOrZero(b, i) && GetOrZero(b, i) == GetOrZero(c, i) {
      CompareFromTrans(a, b, c, i + 1, n);
    }
  }

  /** Positions past both lists compare equal, so a larger bound changes
      nothing. */
  lemma {:induction false} CompareFromExtend(a: seq<int32>, b: seq<int32>, i: nat, n: nat, m: nat)
    requires Max(|a|, |b|) <= n <= m
    ensures CompareFrom(a, b, i, n) == CompareFrom(a, b, i, m)
    decreases n - i
  {
    if i >= n {
      CompareFromZero(a, b, i, m);
    } else {
      CompareFromExtend(a, b, i + 1, n, m);
    }
  }

  /** `compareTo` is antisymmetric. */
  lemma CompareAntisymmetric(a: seq<int32>, b: seq<int32>)
    ensures Compare(a, b) == -Compare(b, a)
  {
    CompareFromSwap(a, b, 0, Max(|a|, |b|));
  }

  /** `compareTo` is transitive, and strictly so when either step is strict. */
  lemma CompareTransitive(a: seq<int32>, b: seq<int32>, c: seq<int32>)
    requires Compare(a, b) <= 0 && Compare(b, c) <= 0
    ensures Compare(a, c) <= 0
    ensures Compare(a, b) < 0 || Compare(b, c) < 0 ==> Compare(a, c) < 0
  {
    var n := Max(Max(|a|, |b|), |c|);
    CompareFromExtend(a, b, 0, Max(|a|, |b|), n);
    CompareFromExtend(b, c, 0, Max(|b|, |c|), n);
    CompareFromExtend(a, c, 0, Max(|a|, |c|), n);
    CompareFromTrans(a, b, c, 0, n);
  }

  /** On constructed versions, `compareTo` is 0 exactly for equal parts:
      trailing zeros are already gone. */
  lemma CompareZeroIffSame(a: VersionParts, b: VersionParts)
    ensures Compare(a, b) == 0 <==> a == b
  {
    var n := Max(|a|, |b|);
    CompareFromZero(a, b, 0, n);
    if Compare(a, b) == 0 {
      var last := n - 1;
      assert GetOrZero(a, last) == GetOrZero(b, last);
      assert |a| == |b|;
      forall k | 0 <= k < |a|
        ensures a[k] == b[k]
      {
        assert GetOrZero(a, k) == GetOrZero(b, k);
      }
    }
  }

  /** `equals`: another `SemanticVersion` that compares as 0. */
  function Equals(v: SemanticVersion, o: Option<SemanticVersion>): (r: bool)
    ensures r <==> o == Some(v)
  {
    if o.None? then false
    else
      CompareZeroIffSame(v.versionParts, o.value.versionParts);
      Compare(v.versionParts, o.value.versionParts) == 0
  }

  /** `List.hashCode` over the parts, in 32-bit arithmetic. */
  function ListHash(p: seq<int32>): int32 {
    if |p| == 0 then 1 else Wrap32(31 * ListHash(p[..|p| - 1]) + p[|p| - 1])
  }

  ghost function Pow31(n: nat): nat {
    if n == 0 then 1 else 31 * Pow31(n - 1)
  }

  /** The documented value of `List.hashCode`: `31^n + p[0]*31^(n-1) + ... + p[n-1]`, exactly. */
  ghost function HashPolynomial(p: seq<int32>): int {
    Pow31(|p|) + WeightedSum(p)
  }

  ghost function WeightedSum(p: seq<int32>): int {
    if |p| == 0 then 0 else p[0] * Pow31(|p| - 1) + WeightedSum(p[1..])
  }

  lemma {:induction false} WeightedSumSnoc(p: seq<int32>, x: int32)
    ensures WeightedSum(p + [x]) == 31 * WeightedSum(p) + x
    decreases |p|
  {
    if |p| == 0 {
      assert WeightedSum([x]) == x * Pow31(0) + WeightedSum([]);
    } else {
      assert (p + [x])[1..] == p[1..] + [x];
      WeightedSumSnoc(p[1..], x);
      assert Pow31(|p + [x]| - 1) == 31 * Pow31(|p| - 1);
      assert p[0] * (31 * Pow31(|p| - 1)) == 31 * (p[0] * Pow31(|p| - 1));
    }
  }

  /** The 32-bit loop yields the exact polynomial reduced once at the end. */
  lemma {:induction false} ListHashIsPolynomial(p: seq<int32>)
    ensures ListHash(p) == Wrap32(HashPolynomial(p))
    decreases |p|
  {
    if |p| > 0 {
      var init, last := p[..|p| - 1], p[|p| - 1];
      assert p == init + [last];
      ListHashIsPolynomial(init);
      WeightedSumSnoc(init, last);
      assert HashPolynomial(p) == 31 * HashPolynomial(init) + last by {
        assert Pow31(|p|) == 31 * Pow31(|init|);
      }
      assert ListHash(p) == Wrap32(31 * ListHash(init) + last);
      HashStep(HashPolynomial(init), last);
    }
  }

  function HashCode(v: SemanticVersion): (r: int32)
    ensures r == Wrap32(HashPolynomial(v.versionParts))
  {
    ListHashIsPolynomial(v.versionParts);
    ListHash(v.versionParts)
  }

  /** `equals` is exact equality of parts, so equal versions hash alike. */
  lemma EqualsConsistent(v: SemanticVersion, w: SemanticVersion)
    ensures Equals(v, Some(w)) <==> v == w
    ensures Equals(v, Some(w)) ==> HashCode(v) == HashCode(w)
    ensures Equals(v, Some(w)) == Equals(w, Some(v))
  {
    CompareZeroIffSame(v.versionParts, w.versionParts);
    CompareZeroIffSame(w.versionParts, v.versionParts);
  }

  // ---------------------------------------------------------------------
  // Accessors and convenience comparisons
  // ---------------------------------------------------------------------

  /** `getMajor`. */
  function GetMajor(v: SemanticVersion): (r: int32)
    ensures r == GetOrZero(v.versionParts, 0)
  {
    v.versionParts[0]
  }

  /** `getMinor`: 0 for a single-part version. */
  function GetMinor(v: SemanticVersion): (r: int32)
    ensures r == GetOrZero(v.versionParts, 1)
  {
    if |v.versionParts| == 1 then 0 else v.versionParts[1]
  }

  /** `isNewerThan(SemanticVersion)`: `compareTo > 0`, so true for `null`. */
  function IsNewerThanVersion(v: SemanticVersion, other: Option<SemanticVersion>): (r: bool)
    ensures other.Some? ==> (r <==> Compare(other.value.versionParts, v.versionParts) < 0)
    ensures other.Some? && other.value == v ==> !r
  {
    if other.None? then true
    else
      CompareAntisymmetric(v.versionParts, other.value.versionParts);
      CompareZeroIffSame(v.versionParts, other.value.versionParts);
      Compare(v.versionParts, other.value.versionParts) > 0
  }

  /** `isMajorNewerThan(SemanticVersion)`: the first parts alone decide; a
      `null` argument throws. */
  function IsMajorNewerThanVersion(v: SemanticVersion, other: Option<SemanticVersion>): (r: Result<bool>)
    ensures r.Err? <==> other.None?
    ensures r.Ok? && r.value ==> IsNewerThanVersion(v, other)
  {
    if other.None? then Err(NullPointer) else Ok(GetMajor(v) > GetMajor(other.value))
  }

  /** `isAtLeast(String)`: parsing the argument may throw. */
  function IsAtLeast(v: SemanticVersion, other: Option<string>): (r: Result<bool>)
    ensures r.Err? <==> FromVersion(other).Err?
    ensures r.Err? ==> r.error == FromVersion(other).error
    ensures r.Ok? ==> (r.value <==> !IsNewerThanVersion(FromVersion(other).value, Some(v)))
  {
    match FromVersion(other)
    case Err(e) => Err(e)
    case Ok(w) => Ok(Compare(v.versionParts, w.versionParts) >= 0)
  }

  /** `isNewerThan(String)`. */
  function IsNewerThan(v: SemanticVersion, other: Option<string>): (r: Result<bool>)
    ensures r.Err? <==> FromVersion(other).Err?
    ensures r.Err? ==> r.error == FromVersion(other).error
    ensures r.Ok? ==> (r.value <==> Compare(FromVersion(other).value.versionParts, v.versionParts) < 0)
  {
    match FromVersion(other)
    case Err(e) => Err(e)
    case Ok(w) => Ok(IsNewerThanVersion(v, Some(w)))
  }

  /** `isMajorNewerThan(String)`. */
  function IsMajorNewerThan(v: SemanticVersion, other: Option<string>): (r: Result<bool>)
    ensures r.Err? <==> FromVersion(other).Err?
    ensures r.Err? ==> r.error == FromVersion(other).error
    ensures r.Ok? ==> (r.value <==> GetMajor(FromVersion(other).value) < GetMajor(v))
  {
    match FromVersion(other)
    case Err(e) => Err(e)
    case Ok(w) => IsMajorNewerThanVersion(v, Some(w))
  }

  /** A version is at least, and not newer than, its own text. */
  lemma ComparedWithOwnText(v: SemanticVersion)
    ensures IsAtLeast(v, Some(ToString(v))) == Ok(true)
    ensures IsNewerThan(v, Some(ToString(v))) == Ok(false)
    ensures IsMajorNewerThan(v, Some(ToString(v))) == Ok(false)
  {
    ToStringRoundTrip(v);
    CompareZeroIffSame(v.versionParts, v.versionParts);
  }

  /** Major-newer implies newer, and newer implies at least. */
  lemma ComparisonsNest(v: SemanticVersion, other: Option<string>)
    ensures IsNewerThan(v, other) == Ok(true) ==> IsAtLeast(v, other) == Ok(true)
    ensures IsMajorNewerThan(v, other) == Ok(true) ==> IsNewerThan(v, other) == Ok(true)
  {
  }

  /** A newer first part makes the whole version newer. */
  lemma MajorDecides(v: SemanticVersion, w: SemanticVersion)
    requires GetMajor(v) > GetMajor(w)
    ensures Compare(v.versionParts, w.versionParts) == 1
  {
  }
}
