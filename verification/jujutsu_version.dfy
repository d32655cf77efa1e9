/** The Jujutsu version gate: the output of `jj version` must be exactly
    `jj <digits>.<digits>.<digits>`, optionally followed by `-` and a
    40-character hexadecimal commit id, and the numeric triple must be at
    least 0.28.0 under Python's list ordering. */
module JujutsuVersion {
  import opened Wrappers
  import opened Text

  /** Length of the optional commit-id suffix. */
  const HashLength: nat := 40

  /** The oldest supported release, compared as a list of integers. */
  const MinVersion: seq<nat> := [0, 28, 0]

  predicate AllHex(s: string) {
    forall i :: 0 <= i < |s| ==> IsHexDigit(s[i])
  }

  /** The four groups of a successful match, as strings. */
  datatype VersionMatch = VersionMatch(major: string, minor: string, patch: string, hash: Option<string>)

  /** The groups that the pattern can capture: non-empty runs of ASCII
      digits and, if present, exactly 40 hexadecimal characters. */
  predicate WellFormed(m: VersionMatch) {
    && m.major != [] && AllDigits(m.major)
    && m.minor != [] && AllDigits(m.minor)
    && m.patch != [] && AllDigits(m.patch)
    && (m.hash.Some? ==> |m.hash.value| == HashLength && AllHex(m.hash.value))
  }

  /** The text a match covers, i.e. group 0. */
  function Render(m: VersionMatch): string {
    "jj " + m.major + "." + m.minor + "." + m.patch + HashSuffix(m.hash)
  }

  /** Splits off the longest leading run of digits, as a greedy `\d*` does. */
  function SpanDigits(s: string): (r: (string, string))
    ensures r.0 + r.1 == s && AllDigits(r.0)
    ensures r.1 == [] || !IsDigit(r.1[0])
  {
    if s == [] || !IsDigit(s[0]) then ([], s)
    else
      var r := SpanDigits(s[1..]);
      assert s == [s[0]] + s[1..];
      ([s[0]] + r.0, r.1)
  }

  lemma {:induction false} SpanDigitsOf(d: string, rest: string)
    requires AllDigits(d) && (rest == [] || !IsDigit(rest[0]))
    ensures SpanDigits(d + rest) == (d, rest)
  {
    if d != [] {
      assert (d + rest)[0] == d[0] && IsDigit(d[0]);
      assert (d + rest)[1..] == d[1..] + rest;
      assert AllDigits(d[1..]);
      SpanDigitsOf(d[1..], rest);
      assert d == [d[0]] + d[1..];
    } else {
      assert d + rest == rest;
    }
  }

  /** `(\d+)\.` at the front of `t`: the digits and the text after the dot. */
  function NumberThenDot(t: string): (r: Option<(string, string)>)
    ensures r.Some? ==> r.value.0 != [] && AllDigits(r.value.0) && t == r.value.0 + "." + r.value.1
  {
    var (g, rest) := SpanDigits(t);
    if g == [] || rest == [] || rest[0] != '.' then None
    else
      assert rest == "." + rest[1..];
      Some((g, rest[1..]))
  }

  lemma NumberThenDotOf(g: string, rest: string)
    requires g != [] && AllDigits(g)
    ensures NumberThenDot(g + "." + rest) == Some((g, rest))
  {
    SpanDigitsOf(g, "." + rest);
    assert g + "." + rest == g + ("." + rest);
    assert ("." + rest)[1..] == rest;
  }

  /** The suffix the pattern covers after `("-" + hash)`, or nothing. */
  function HashSuffix(hash: Option<string>): string {
    if hash.Some? then "-" + hash.value else ""
  }

  /** `(\d+)(-[a-fA-F0-9]{40})?` covering all of `t`. */
  function PatchAndHash(t: string): (r: Option<(string, Option<string>)>)
    ensures r.Some? ==> r.value.0 != [] && AllDigits(r.value.0) && t == r.value.0 + HashSuffix(r.value.1)
    ensures r.Some? && r.value.1.Some? ==> |r.value.1.value| == HashLength && AllHex(r.value.1.value)
  {
    var (g, rest) := SpanDigits(t);
    if g == [] then None
    else if rest == [] then Some((g, None))
    else if |rest| == HashLength + 1 && rest[0] == '-' && AllHex(rest[1..]) then
      assert rest == "-" + rest[1..];
      Some((g, Some(rest[1..])))
    else None
  }

  lemma PatchAndHashOf(g: string, hash: Option<string>)
    requires g != [] && AllDigits(g)
    requires hash.Some? ==> |hash.value| == HashLength && AllHex(hash.value)
    ensures PatchAndHash(g + HashSuffix(hash)) == Some((g, hash))
  {
    SpanDigitsOf(g, HashSuffix(hash));
    if hash.Some? {
      assert HashSuffix(hash)[1..] == hash.value;
    } else {
      assert g + HashSuffix(hash) == g;
    }
  }

  /** Full match of the version pattern against `s`; `None` when the
      pattern does not cover the whole string. */
  function Parse(s: string): (r: Option<VersionMatch>)
    ensures r.Some? ==> WellFormed(r.value) && Render(r.value) == s
  {
    if |s| < 3 || s[..3] != "jj " then None
    else
      match NumberThenDot(s[3..])
      case None => None
      case Some((major, t1)) =>
        match NumberThenDot(t1)
        case None => None
        case Some((minor, t2)) =>
          match PatchAndHash(t2)
          case None => None
          case Some((patch, hash)) =>
            RenderParts(s, VersionMatch(major, minor, patch, hash), t1, t2);
            Some(VersionMatch(major, minor, patch, hash))
  }

  lemma RenderParts(s: string, m: VersionMatch, t1: string, t2: string)
    requires |s| >= 3 && s[..3] == "jj " && s[3..] == m.major + "." + t1
    requires t1 == m.minor + "." + t2 && t2 == m.patch + HashSuffix(m.hash)
    ensures Render(m) == s
  {
    assert s == s[..3] + s[3..];
  }

  /** Every well-formed match is recovered from the text it covers. */
  lemma ParseRender(m: VersionMatch)
    requires WellFormed(m)
    ensures Parse(Render(m)) == Some(m)
  {
    var s := Render(m);
    var t2 := m.patch + HashSuffix(m.hash);
    var t1 := m.minor + "." + t2;
    assert s == "jj " + (m.major + "." + t1);
    NumberThenDotOf(m.major, t1);
    NumberThenDotOf(m.minor, t2);
    PatchAndHashOf(m.patch, m.hash);
  }

  /** The pattern matches exactly the rendered well-formed matches, and the
      groups are determined by the text. */
  lemma ParseIff(s: string, m: VersionMatch)
    ensures Parse(s) == Some(m) <==> WellFormed(m) && s == Render(m)
  {
    if WellFormed(m) && s == Render(m) {
      ParseRender(m);
    }
  }

  /** A match always starts with `jj ` and ends with a digit or hex character,
      so leading or trailing text around a version is rejected. */
  lemma MatchBounds(s: string)
    ensures Parse(s).Some? ==> |s| > 3 && s[..3] == "jj " && IsHexDigit(s[|s| - 1])
    ensures Parse(s).Some? ==> s[1] == 'j' && s[2] == ' '
  {
    if Parse(s).Some? {
      assert s[1] == s[..3][1] && s[2] == s[..3][2];
      var m := Parse(s).value;
      if m.hash.None? {
        assert s[|s| - 1] == m.patch[|m.patch| - 1];
      } else {
        assert s[|s| - 1] == m.hash.value[HashLength - 1];
      }
    }
  }

  /** Text before an accepted version makes the whole output unmatched. */
  lemma LeadingTextRejected(v: string, c: char)
    requires Parse(v).Some?
    ensures CheckVersion([c] + v) == Err(Undetermined)
  {
    MatchBounds(v);
    MatchBounds([c] + v);
    assert ([c] + v)[2] == v[1];
  }

  /** A non-hex character after an accepted version makes the whole output
      unmatched. */
  lemma TrailingTextRejected(v: string, c: char)
    requires Parse(v).Some? && !IsHexDigit(c)
    ensures CheckVersion(v + [c]) == Err(Undetermined)
  {
    MatchBounds(v + [c]);
    assert (v + [c])[|v + [c]| - 1] == c;
  }

  /** A dash followed by anything but exactly 40 characters does not match. */
  lemma BadSuffixRejected(m: VersionMatch, rest: string)
    requires WellFormed(m) && m.hash.None?
    requires rest != [] && rest[0] == '-' && |rest| != HashLength + 1
    ensures CheckVersion(Render(m) + rest) == Err(Undetermined)
  {
    var t2 := m.patch + rest;
    var t1 := m.minor + "." + t2;
    var s := Render(m) + rest;
    assert s == "jj " + (m.major + "." + t1);
    NumberThenDotOf(m.major, t1);
    NumberThenDotOf(m.minor, t2);
    SpanDigitsOf(m.patch, rest);
  }

  /** Python's `<` on lists: the first differing element decides, and a
      proper prefix is smaller. */
  function ListLess(a: seq<int>, b: seq<int>): (r: bool)
    ensures r ==> a != b
    ensures |a| < |b| && a == b[..|a|] ==> r
  {
    if a == [] then b != []
    else if b == [] then false
    else if a[0] != b[0] then a[0] < b[0]
    else ListLess(a[1..], b[1..])
  }

  /** On triples, list order is major, then minor, then patch. */
  lemma ListLessTriple(a: seq<int>, b: seq<int>)
    requires |a| == 3 && |b| == 3
    ensures ListLess(a, b) <==>
      a[0] < b[0] || (a[0] == b[0] && (a[1] < b[1] || (a[1] == b[1] && a[2] < b[2])))
  {
    var a1, b1 := a[1..], b[1..];
    var a2, b2 := a1[1..], b1[1..];
    assert a2[1..] == [] && b2[1..] == [];
    assert ListLess(a2, b2) <==> a[2] < b[2];
    assert ListLess(a1, b1) <==> a[1] < b[1] || (a[1] == b[1] && a[2] < b[2]);
  }

  /** The numeric groups, as `list(map(int, ...))` gives them. */
  function Components(m: VersionMatch): seq<nat>
    requires WellFormed(m)
  {
    [DigitsToNat(m.major), DigitsToNat(m.minor), DigitsToNat(m.patch)]
  }

  /** Python's `'.'.join(map(str, v))`. */
  function Dotted(v: seq<nat>): string {
    Join(seq(|v|, i requires 0 <= i < |v| => NatToString(v[i])), ".")
  }

  datatype VersionError = Undetermined | TooOld(required: seq<nat>) {
    function Message(): string {
      match this
      case Undetermined => "Failed to determine Jujutsu version."
      case TooOld(required) => "`moz-phab` requires Jujutsu " + Dotted(required) + " or higher."
    }
  }

  /** The version check: the whole output when it is a supported version. */
  function CheckVersion(output: string): (r: Result<string, VersionError>)
    ensures r.Ok? ==> r.value == output
    ensures r == Err(Undetermined) <==> Parse(output).None?
    ensures r.Err? ==> r == Err(Undetermined) || r == Err(TooOld(MinVersion))
  {
    match Parse(output)
    case None => Err(Undetermined)
    case Some(m) =>
      if ListLess(Components(m), MinVersion) then Err(TooOld(MinVersion))
      else Ok(Render(m))
  }

  /** A parsed version passes exactly when it is 1.x.y or later, or 0.x.y
      with x at least 28. */
  lemma VersionFloor(output: string, m: VersionMatch)
    requires Parse(output) == Some(m)
    ensures CheckVersion(output).Ok? <==> DigitsToNat(m.major) >= 1 || DigitsToNat(m.minor) >= 28
  {
    ListLessTriple(Components(m), MinVersion);
  }

  /** The commit-id suffix never changes the outcome of the floor check. */
  lemma HashIgnored(m: VersionMatch, hash: string)
    requires WellFormed(m) && |hash| == HashLength && AllHex(hash)
    ensures CheckVersion(Render(m.(hash := Some(hash)))).Ok? <==> CheckVersion(Render(m.(hash := None))).Ok?
  {
    ParseRender(m.(hash := Some(hash)));
    ParseRender(m.(hash := None));
  }

  lemma TwentyEight()
    ensures NatToString(28) == "28"
  {
    assert NatToString(2) == "2";
  }

  lemma DottedMinVersion()
    ensures Dotted(MinVersion) == "0.28.0"
  {
    TwentyEight();
    assert NatToString(0) == "0";
    var parts := seq(|MinVersion|, i requires 0 <= i < |MinVersion| => NatToString(MinVersion[i]));
    assert parts == ["0", "28", "0"];
    assert Join(["0"], ".") == "0";
    assert Join(["28", "0"], ".") == "28.0";
  }

  /** The error for an old release names 0.28.0. */
  lemma TooOldMessage()
    ensures TooOld(MinVersion).Message() == "`moz-phab` requires Jujutsu 0.28.0 or higher."
  {
    DottedMinVersion();
  }

  lemma DigitsValues()
    ensures DigitsToNat("0") == 0 && DigitsToNat("1") == 1 && DigitsToNat("9") == 9
    ensures DigitsToNat("28") == 28 && DigitsToNat("27") == 27
  {
    assert "28"[..1] == "2" && "27"[..1] == "2";
  }

  /** The minimum itself is accepted and returned verbatim. */
  lemma AcceptsMinimum()
    ensures CheckVersion("jj 0.28.0") == Ok("jj 0.28.0")
  {
    var m := VersionMatch("0", "28", "0", None);
    assert Render(m) == "jj 0.28.0";
    ParseRender(m);
    DigitsValues();
  }

  /** One patch release below the minimum is too old. */
  lemma RejectsOlderPatch()
    ensures CheckVersion("jj 0.27.9") == Err(TooOld(MinVersion))
  {
    var m := VersionMatch("0", "27", "9", None);
    assert Render(m) == "jj 0.27.9";
    ParseRender(m);
    DigitsValues();
  }

  lemma AcceptsNextMajor()
    ensures CheckVersion("jj 1.0.0") == Ok("jj 1.0.0")
  {
    var m := VersionMatch("1", "0", "0", None);
    assert Render(m) == "jj 1.0.0";
    ParseRender(m);
    DigitsValues();
  }

  const DevHash: string := "deadbeefdeadbeefdeadbeefdeadbeefdeadbeef"

  lemma DevHashWellFormed()
    ensures |DevHash| == HashLength && AllHex(DevHash)
  {
  }

  /** A development build keeps its commit-id suffix in the result. */
  lemma AcceptsDevelopmentBuild()
    ensures CheckVersion("jj 0.28.0-" + DevHash) == Ok("jj 0.28.0-" + DevHash)
  {
    var m := VersionMatch("0", "28", "0", Some(DevHash));
    DevHashWellFormed();
    assert Render(m) == "jj 0.28.0-" + DevHash;
    ParseRender(m);
    DigitsValues();
  }

  /** A commit id of the wrong length does not match. */
  lemma RejectsShortHash()
    ensures CheckVersion("jj 0.28.0-deadbeef") == Err(Undetermined)
  {
    var m := VersionMatch("0", "28", "0", None);
    assert Render(m) + "-deadbeef" == "jj 0.28.0-deadbeef";
    BadSuffixRejected(m, "-deadbeef");
  }
}
