/**
 * The journal, snapshot-store and query settings read from a HOCON section:
 * required keys, defaults, `Version.Parse` of the http version, the
 * certificate precedence, and the document conventions built from them.
 */
module Configuration {
  import opened Wrappers
  import opened Text

  const TicksPerSecond: int := 10_000_000
  const Int32Max: int := 0x7FFF_FFFF
  const Int32Min: int := -0x8000_0000

  /** A HOCON section after parsing, one map per value type that is read. */
  datatype Config = Config(
    strings: map<string, string>,
    stringLists: map<string, seq<string>>,
    booleans: map<string, bool>,
    timeSpans: map<string, int>,   // in ticks
    ints: map<string, int>)

  datatype ConfigError =
    | ArgumentError(message: string)
    | ArgumentNullError(paramName: string, message: string)
    | NullReference
    | VersionFormatError                 // FormatException from int.Parse
    | VersionOverflowError               // OverflowException from int.Parse
    | VersionComponentOutOfRange         // ArgumentOutOfRangeException: a negative component
    | CertificateLoadError(message: string)

  // ---- Version.Parse -------------------------------------------------------

  /** A System.Version: two to four components, each within int. */
  type Version = seq<nat>

  predicate ValidVersion(v: Version) {
    2 <= |v| <= 4 && forall i :: 0 <= i < |v| ==> v[i] <= Int32Max
  }

  function JoinWith(parts: seq<string>, sep: char): string
    requires |parts| >= 1
  {
    if |parts| == 1 then parts[0] else parts[0] + [sep] + JoinWith(parts[1..], sep)
  }

  /** `string.Split(sep)`: the pieces between separators, empty pieces included. */
  function SplitOn(s: string, sep: char): (parts: seq<string>)
    ensures |parts| >= 1
    ensures forall i :: 0 <= i < |parts| ==> sep !in parts[i]
    ensures JoinWith(parts, sep) == s
    decreases |s|
  {
    if s == [] then [[]]
    else
      var rest := SplitOn(s[1..], sep);
      if s[0] == sep then
        assert s == [sep] + s[1..];
        [[]] + rest
      else
        var parts := [[s[0]] + rest[0]] + rest[1..];
        assert parts[1..] == rest[1..];
        assert s == [s[0]] + s[1..];
        parts
  }

  lemma {:induction false} SplitJoin(parts: seq<string>, sep: char)
    requires |parts| >= 1
    requires forall i :: 0 <= i < |parts| ==> sep !in parts[i]
    ensures SplitOn(JoinWith(parts, sep), sep) == parts
    decreases |parts|, |parts[0]|
  {
    var s := JoinWith(parts, sep);
    if parts[0] == [] {
      if |parts| > 1 {
        assert s == [sep] + JoinWith(parts[1..], sep);
        assert s[1..] == JoinWith(parts[1..], sep);
        SplitJoin(parts[1..], sep);
        assert parts == [[]] + parts[1..];
      }
    } else {
      var tail := [parts[0][1..]] + parts[1..];
      assert parts[0] == [parts[0][0]] + parts[0][1..];
      assert parts[0][0] in parts[0];
      forall i | 0 <= i < |tail| ensures sep !in tail[i] {
        if i == 0 {
          forall k | 0 <= k < |parts[0][1..]| ensures parts[0][1..][k] != sep {
            assert parts[0][1..][k] == parts[0][k + 1];
          }
        } else {
          assert tail[i] == parts[i];
        }
      }
      assert tail[1..] == parts[1..];
      assert JoinWith(tail, sep) == s[1..];
      SplitJoin(tail, sep);
      assert parts == [[parts[0][0]] + tail[0]] + tail[1..];
    }
  }

  // ---- int.Parse(s, NumberStyles.Integer, CultureInfo.InvariantCulture) ----

  /** The white space that `AllowLeadingWhite` and `AllowTrailingWhite` skip: U+0009 to U+000D and U+0020. */
  predicate IsWhite(c: char) { c == ' ' || '\t' <= c <= '\r' }

  predicate AllWhite(s: string) { forall i :: 0 <= i < |s| ==> IsWhite(s[i]) }

  /** `s` without its leading white space. */
  function TrimStart(s: string): string {
    if s != [] && IsWhite(s[0]) then TrimStart(s[1..]) else s
  }

  /** `s` without its trailing white space. */
  function TrimEnd(s: string): string {
    if s != [] && IsWhite(s[|s| - 1]) then TrimEnd(s[..|s| - 1]) else s
  }

  /** TrimStart drops a white prefix and keeps the rest, which starts with no white space. */
  lemma {:induction false} TrimStartShape(s: string)
    ensures var t := TrimStart(s);
            && |t| <= |s| && t == s[|s| - |t|..]
            && AllWhite(s[..|s| - |t|])
            && (t != [] ==> !IsWhite(t[0]))
    decreases |s|
  {
    if s != [] && IsWhite(s[0]) {
      TrimStartShape(s[1..]);
      var t := TrimStart(s);
      assert s[..|s| - |t|] == [s[0]] + s[1..][..|s| - 1 - |t|];
    }
  }

  /** TrimEnd drops a white suffix and keeps the rest, which ends with no white space. */
  lemma {:induction false} TrimEndShape(s: string)
    ensures var t := TrimEnd(s);
            && |t| <= |s| && t == s[..|t|]
            && AllWhite(s[|t|..])
            && (t != [] ==> !IsWhite(t[|t| - 1]))
    decreases |s|
  {
    if s != [] && IsWhite(s[|s| - 1]) {
      var init := s[..|s| - 1];
      TrimEndShape(init);
      var t := TrimEnd(s);
      assert s[|t|..] == init[|t|..] + [s[|s| - 1]];
    }
  }

  /**
   * `int.Parse` with `NumberStyles.Integer`: white space around, an optional
   * leading '+' or '-', then at least one decimal digit; a value outside int
   * overflows.
   */
  function ParseInt32(s: string): (r: Result<int, ConfigError>)
    ensures r.Success? ==> Int32Min <= r.value <= Int32Max
    ensures r.Failure? ==> r.error == VersionFormatError || r.error == VersionOverflowError
  {
    ParseSigned(TrimEnd(TrimStart(s)))
  }

  /** The trimmed text: an optional sign, then decimal digits within int. */
  function ParseSigned(t: string): Result<int, ConfigError> {
    var negative := t != [] && t[0] == '-';
    var digits := if t != [] && (t[0] == '+' || t[0] == '-') then t[1..] else t;
    if digits == [] || !AllDigits(digits) then Failure(VersionFormatError)
    else
      var v := if negative then -(DecimalValue(digits) as int) else DecimalValue(digits) as int;
      if v < Int32Min || v > Int32Max then Failure(VersionOverflowError) else Success(v)
  }

  /** A sign and digits read as their signed value, or overflow. */
  lemma SignedValue(sign: string, digits: string)
    requires sign == "" || sign == "+" || sign == "-"
    requires digits != [] && AllDigits(digits)
    ensures var v := if sign == "-" then -(DecimalValue(digits) as int) else DecimalValue(digits) as int;
            ParseSigned(sign + digits) == (if Int32Min <= v <= Int32Max then Success(v) else Failure(VersionOverflowError))
  {
    var t := sign + digits;
    if sign == "" {
      assert t == digits && IsDigit(t[0]);
    } else {
      assert t[0] == sign[0] && t[1..] == digits;
    }
  }

  lemma {:induction false} TrimStartSkips(lead: string, x: string)
    requires AllWhite(lead) && x != [] && !IsWhite(x[0])
    ensures TrimStart(lead + x) == x
    decreases |lead|
  {
    if lead != [] {
      assert (lead + x)[1..] == lead[1..] + x;
      TrimStartSkips(lead[1..], x);
    }
  }

  lemma {:induction false} TrimEndSkips(x: string, trail: string)
    requires AllWhite(trail) && x != [] && !IsWhite(x[|x| - 1])
    ensures TrimEnd(x + trail) == x
    decreases |trail|
  {
    if trail != [] {
      var init := trail[..|trail| - 1];
      assert (x + trail)[..|x + trail| - 1] == x + init;
      TrimEndSkips(x, init);
    } else {
      assert x + trail == x;
    }
  }

  /**
   * Every text of the accepted shape parses to its signed decimal value, or
   * overflows when that is outside int.
   */
  lemma ParseInt32Text(lead: string, sign: string, digits: string, trail: string)
    requires AllWhite(lead) && AllWhite(trail)
    requires sign == "" || sign == "+" || sign == "-"
    requires digits != [] && AllDigits(digits)
    ensures var v := if sign == "-" then -(DecimalValue(digits) as int) else DecimalValue(digits) as int;
            ParseInt32(lead + sign + digits + trail) ==
              (if Int32Min <= v <= Int32Max then Success(v) else Failure(VersionOverflowError))
  {
    TrimsToCore(lead, sign, digits, trail);
    SignedValue(sign, digits);
  }

  /** Trimming the accepted shape leaves the sign and the digits. */
  lemma TrimsToCore(lead: string, sign: string, digits: string, trail: string)
    requires AllWhite(lead) && AllWhite(trail)
    requires sign == "" || sign == "+" || sign == "-"
    requires digits != [] && AllDigits(digits)
    ensures TrimEnd(TrimStart(lead + sign + digits + trail)) == sign + digits
  {
    var core := sign + digits;
    assert core != [] && core[|core| - 1] == digits[|digits| - 1];
    assert !IsWhite(core[0]) by {
      if sign == "" { assert core[0] == digits[0]; }
    }
    assert lead + sign + digits + trail == lead + (core + trail);
    assert (core + trail)[0] == core[0];
    TrimStartSkips(lead, core + trail);
    TrimEndSkips(core, trail);
  }

  /** A character that is neither white space, a sign nor a digit makes `int.Parse` raise a FormatException. */
  lemma ParseInt32Rejects(s: string, i: nat)
    requires i < |s| && !IsWhite(s[i]) && !IsDigit(s[i]) && s[i] != '+' && s[i] != '-'
    ensures ParseInt32(s) == Failure(VersionFormatError)
  {
    var u := TrimStart(s);
    TrimStartShape(s);
    var a := |s| - |u|;
    assert i >= a;
    assert u[i - a] == s[i];
    var t := TrimEnd(u);
    TrimEndShape(u);
    assert i - a < |t|;
    assert t[i - a] == s[i];
    var digits := if t[0] == '+' || t[0] == '-' then t[1..] else t;
    if t[0] == '+' || t[0] == '-' {
      assert digits[i - a - 1] == s[i];
    } else {
      assert digits[i - a] == s[i];
    }
  }

  /**
   * The components of `Version.Parse`, left to right: `int.Parse` of each,
   * then a negative value is refused with ArgumentOutOfRangeException.
   */
  function ParseComponents(parts: seq<string>): (r: Result<seq<nat>, ConfigError>)
    ensures r.Success? ==> |r.value| == |parts| && forall i :: 0 <= i < |r.value| ==> r.value[i] <= Int32Max
  {
    if parts == [] then Success([])
    else
      var n := ParseInt32(parts[0]);
      if n.Failure? then Failure(n.error)
      else if n.value < 0 then Failure(VersionComponentOutOfRange)
      else
        var rest :- ParseComponents(parts[1..]);
        Success([n.value as nat] + rest)
  }

  /** A component that reads as a non-negative int is prepended to the rest. */
  lemma ParseComponentsCons(part: string, parts: seq<string>)
    requires ParseInt32(part).Success? && ParseInt32(part).value >= 0
    requires ParseComponents(parts).Success?
    ensures ParseComponents([part] + parts) == Success([ParseInt32(part).value as nat] + ParseComponents(parts).value)
  {
    assert ([part] + parts)[0] == part && ([part] + parts)[1..] == parts;
  }

  /** `Version.Parse`: two to four '.'-separated components, each read by `int.Parse` and refused when negative. */
  function ParseVersion(s: string): (r: Result<Version, ConfigError>)
    ensures r.Success? ==> ValidVersion(r.value)
    ensures !(2 <= |SplitOn(s, '.')| <= 4) ==> r == Failure(ArgumentError("Version string portion was too short or too long"))
  {
    var parts := SplitOn(s, '.');
    if |parts| < 2 || |parts| > 4 then Failure(ArgumentError("Version string portion was too short or too long"))
    else ParseComponents(parts)
  }

  /** A text without the separator is one piece. */
  lemma {:induction false} SplitNone(s: string, sep: char)
    requires sep !in s
    ensures SplitOn(s, sep) == [s]
    decreases |s|
  {
    if s != [] {
      SplitNone(s[1..], sep);
      assert [s[0]] + s[1..] == s;
    }
  }

  /** The text before the first separator is the first piece. */
  lemma {:induction false} SplitAtFirst(a: string, b: string, sep: char)
    requires sep !in a
    ensures SplitOn(a + [sep] + b, sep) == [a] + SplitOn(b, sep)
    decreases |a|
  {
    if a == [] {
      assert ([sep] + b)[1..] == b;
    } else {
      assert (a + [sep] + b)[1..] == a[1..] + [sep] + b;
      SplitAtFirst(a[1..], b, sep);
      assert [a[0]] + a[1..] == a;
    }
  }

  /** A two-component version text splits into its two components. */
  lemma SplitTwo(a: string, b: string)
    requires '.' !in a && '.' !in b
    ensures SplitOn(a + "." + b, '.') == [a, b]
  {
    SplitNone(b, '.');
    SplitAtFirst(a, b, '.');
    assert a + "." + b == a + ['.'] + b;
  }

  /** `Version.Parse` is as lenient as `int.Parse` within a component: white space and a '+' sign pass. */
  lemma ParseVersionLenient()
    ensures ParseVersion(" 2.+0 ") == Success([2, 0])
  {
    SplitTwo(" 2", "+0 ");
    assert " 2" + "." + "+0 " == " 2.+0 ";
    LenientComponents();
  }

  lemma LenientComponents()
    ensures ParseComponents([" 2", "+0 "]) == Success([2, 0])
  {
    LenientInts();
    assert ParseComponents([]) == Success([]);
    ParseComponentsCons("+0 ", []);
    assert ["+0 "] + [] == ["+0 "];
    assert [0 as nat] + [] == [0];
    assert ParseComponents(["+0 "]) == Success([0]);
    ParseComponentsCons(" 2", ["+0 "]);
    assert [" 2"] + ["+0 "] == [" 2", "+0 "];
    assert [2 as nat] + [0] == [2, 0];
  }

  lemma LenientInts()
    ensures ParseInt32(" 2") == Success(2) && ParseInt32("+0 ") == Success(0)
  {
    assert "2"[..0] == [] && "0"[..0] == [];
    assert DecimalValue("2") == 2 && DecimalValue("0") == 0;
    ParseInt32Text(" ", "", "2", "");
    assert " " + "" + "2" + "" == " 2";
    ParseInt32Text("", "+", "0", " ");
    assert "" + "+" + "0" + " " == "+0 ";
  }

  /** A negative component is refused with ArgumentOutOfRangeException. */
  lemma ParseVersionNegative()
    ensures ParseVersion("-1.0") == Failure(VersionComponentOutOfRange)
  {
    SplitTwo("-1", "0");
    assert "-1" + "." + "0" == "-1.0";
    assert "1"[..0] == [];
    assert DecimalValue("1") == 1;
    ParseInt32Text("", "-", "1", "");
    assert "" + "-" + "1" + "" == "-1";
    assert ParseInt32("-1") == Success(-1);
  }

  function DigitsOf(v: seq<nat>): (r: seq<string>)
    ensures |r| == |v| && forall i :: 0 <= i < |r| ==> r[i] == NatDigits(v[i])
  {
    if v == [] then [] else [NatDigits(v[0])] + DigitsOf(v[1..])
  }

  /** `Version.ToString()`. */
  function FormatVersion(v: Version): string
    requires ValidVersion(v)
  {
    JoinWith(DigitsOf(v), '.')
  }

  lemma {:induction false} ParseDigitsOf(v: seq<nat>)
    requires forall i :: 0 <= i < |v| ==> v[i] <= Int32Max
    ensures ParseComponents(DigitsOf(v)) == Success(v)
    decreases |v|
  {
    if v != [] {
      var d := NatDigits(v[0]);
      assert ParseInt32(d) == Success(v[0] as int) by {
        assert "" + "" + d + "" == d;
        ParseInt32Text("", "", d, "");
      }
      ParseDigitsOf(v[1..]);
      assert DigitsOf(v) == [d] + DigitsOf(v[1..]);
      ParseComponentsCons(d, DigitsOf(v[1..]));
      assert v == [v[0]] + v[1..];
    }
  }

  /** Parsing inverts formatting. */
  lemma VersionRoundTrip(v: Version)
    requires ValidVersion(v)
    ensures ParseVersion(FormatVersion(v)) == Success(v)
  {
    var parts := DigitsOf(v);
    assert forall i :: 0 <= i < |parts| ==> AllDigits(parts[i]);
    SplitJoin(parts, '.');
    ParseDigitsOf(v);
  }

  // ---- settings ------------------------------------------------------------

  datatype Certificate =
    | SetupCertificate(id: string)                        // RavenDbSetup.Certificate
    | FileCertificate(path: string, password: Option<string>)

  datatype LoadBalanceBehavior = LoadBalanceNone | UseSessionContext

  /** The document conventions this plugin sets. */
  datatype Conventions = Conventions(
    httpVersion: Option<Version>,
    disableTcpCompression: bool,
    loadBalanceBehavior: LoadBalanceBehavior)

  /**
   * What a user's `ModifyDocumentConventions` does to the three conventions
   * above: each field it assigns, and nothing for the ones it leaves alone.
   */
  datatype ConventionsPatch = ConventionsPatch(
    httpVersion: Option<Option<Version>>,
    disableTcpCompression: Option<bool>,
    loadBalanceBehavior: Option<LoadBalanceBehavior>)

  datatype Setup = Setup(certificate: Option<Certificate>, modifyDocumentConventions: Option<ConventionsPatch>)

  datatype Settings = Settings(
    name: string,
    urls: seq<string>,
    certificatePath: Option<string>,
    certificate: Option<Certificate>,
    httpVersion: Version,
    disableTcpCompression: bool,
    saveChangesTimeout: int,
    modifyDocumentConventions: Option<ConventionsPatch>,
    autoInitialize: bool)

  const DefaultHttpVersion: string := "2.0"
  const DefaultSaveChangesTimeout: int := 30 * TicksPerSecond

  predicate UsesHttps(urls: seq<string>) {
    exists i :: 0 <= i < |urls| && Contains(urls[i], "https")
  }

  /**
   * `GetCertificate`: the setup's certificate wins, then a non-empty
   * certificate-path, loaded with the password from the environment;
   * with neither, an https url is an error. `loadError(path, password)` is
   * the message of the exception `new X509Certificate2(path, password)`
   * raises (a missing or unreadable file, a wrong password), if any.
   */
  function GetCertificate(setup: Setup, certificatePath: Option<string>, urls: seq<string>, password: Option<string>,
                          loadError: (string, Option<string>) -> Option<string>)
    : (r: Result<Option<Certificate>, ConfigError>)
    ensures setup.certificate.Some? ==> r == Success(setup.certificate)
    ensures setup.certificate.None? && certificatePath.Some? && certificatePath.value != [] ==>
              r == (if loadError(certificatePath.value, password).Some?
                    then Failure(CertificateLoadError(loadError(certificatePath.value, password).value))
                    else Success(Some(FileCertificate(certificatePath.value, password))))
    ensures r.Failure? <==>
              setup.certificate.None? &&
              if certificatePath.Some? && certificatePath.value != [] then loadError(certificatePath.value, password).Some?
              else UsesHttps(urls)
    ensures r == Success(None) <==>
              setup.certificate.None? && (certificatePath.None? || certificatePath.value == []) && !UsesHttps(urls)
  {
    if setup.certificate.Some? then Success(setup.certificate)
    else if certificatePath.Some? && certificatePath.value != [] then
      var error := loadError(certificatePath.value, password);
      if error.Some? then Failure(CertificateLoadError(error.value))
      else Success(Some(FileCertificate(certificatePath.value, password)))
    else if AnyContains(urls, "https") then
      Failure(ArgumentError("RavenDB is using https but no certificate was provided"))
    else Success(None)
  }

  /** `urls.Any(x => x.Contains(sub))`, as a loop over the list. */
  function AnyContains(urls: seq<string>, sub: string): (b: bool)
    ensures b <==> exists i :: 0 <= i < |urls| && Contains(urls[i], sub)
  {
    if urls == [] then false
    else if Contains(urls[0], sub) then true
    else
      var b := AnyContains(urls[1..], sub);
      assert forall i :: 1 <= i < |urls| ==> urls[i] == urls[1..][i - 1];
      b
  }

  /**
   * The `RavenDbConfiguration` constructor: name and urls are required, the
   * rest defaults, and the certificate is resolved last.
   */
  function Load(c: Config, setup: Setup, password: Option<string>,
                loadError: (string, Option<string>) -> Option<string>): (r: Result<Settings, ConfigError>)
    ensures "name" !in c.strings ==> r == Failure(ArgumentError("name must be provided"))
    ensures "name" in c.strings && "urls" !in c.stringLists ==> r == Failure(ArgumentError("urls must be provided"))
    ensures r.Success? ==>
              && "name" in c.strings && r.value.name == c.strings["name"]
              && "urls" in c.stringLists && r.value.urls == c.stringLists["urls"]
              && r.value.autoInitialize == (if "auto-initialize" in c.booleans then c.booleans["auto-initialize"] else true)
              && r.value.saveChangesTimeout ==
                   (if "save-changes-timeout" in c.timeSpans then c.timeSpans["save-changes-timeout"] else DefaultSaveChangesTimeout)
              && r.value.disableTcpCompression == ("disable-tcp-compression" in c.booleans && c.booleans["disable-tcp-compression"])
              && ("http-version" !in c.strings ==> r.value.httpVersion == [2, 0])
              && ValidVersion(r.value.httpVersion)
              && r.value.modifyDocumentConventions == setup.modifyDocumentConventions
    ensures r.Success? ==>
              Success(r.value.certificate) == GetCertificate(setup, r.value.certificatePath, r.value.urls, password, loadError)
  {
    if "name" !in c.strings then Failure(ArgumentError("name must be provided"))
    else if "urls" !in c.stringLists then Failure(ArgumentError("urls must be provided"))
    else
      var name := c.strings["name"];
      var urls := c.stringLists["urls"];
      var certificatePath := if "certificate-path" in c.strings then Some(c.strings["certificate-path"]) else None;
      var autoInitialize := if "auto-initialize" in c.booleans then c.booleans["auto-initialize"] else true;
      var httpVersionText := if "http-version" in c.strings then c.strings["http-version"] else DefaultHttpVersion;
      var httpVersion :- ParseVersion(httpVersionText);
      var disableTcpCompression := "disable-tcp-compression" in c.booleans && c.booleans["disable-tcp-compression"];
      var saveChangesTimeout :=
        if "save-changes-timeout" in c.timeSpans then c.timeSpans["save-changes-timeout"] else DefaultSaveChangesTimeout;
      var certificate :- GetCertificate(setup, certificatePath, urls, password, loadError);
      DefaultVersionParses();
      Success(Settings(name, urls, certificatePath, certificate, httpVersion, disableTcpCompression,
                       saveChangesTimeout, setup.modifyDocumentConventions, autoInitialize))
  }

  lemma DefaultVersionParses()
    ensures ParseVersion(DefaultHttpVersion) == Success([2, 0])
  {
    assert FormatVersion([2, 0]) == DefaultHttpVersion by {
      assert DigitsOf([2, 0]) == ["2", "0"];
    }
    VersionRoundTrip([2, 0]);
  }

  function Patch(c: Conventions, p: ConventionsPatch): Conventions {
    Conventions(
      if p.httpVersion.Some? then p.httpVersion.value else c.httpVersion,
      if p.disableTcpCompression.Some? then p.disableTcpCompression.value else c.disableTcpCompression,
      if p.loadBalanceBehavior.Some? then p.loadBalanceBehavior.value else c.loadBalanceBehavior)
  }

  /**
   * `ToDocumentConventions`: the plugin's three settings first, then the
   * user's modifier, so every convention the modifier assigns wins.
   */
  function ToDocumentConventions(s: Settings): (r: Conventions)
    ensures s.modifyDocumentConventions.None? ==>
              r == Conventions(Some(s.httpVersion), s.disableTcpCompression, UseSessionContext)
    ensures s.modifyDocumentConventions.Some? ==>
              var p := s.modifyDocumentConventions.value;
              && r.httpVersion == (if p.httpVersion.Some? then p.httpVersion.value else Some(s.httpVersion))
              && r.disableTcpCompression ==
                   (if p.disableTcpCompression.Some? then p.disableTcpCompression.value else s.disableTcpCompression)
              && r.loadBalanceBehavior ==
                   (if p.loadBalanceBehavior.Some? then p.loadBalanceBehavior.value else UseSessionContext)
  {
    var conventions := Conventions(Some(s.httpVersion), s.disableTcpCompression, UseSessionContext);
    if s.modifyDocumentConventions.Some? then Patch(conventions, s.modifyDocumentConventions.value) else conventions
  }

  /**
   * `RavenDbJournalConfiguration` (and the snapshot one, which has the same
   * shape): the base constructor runs before the null check, so a missing
   * section fails on its first read.
   */
  function JournalConfigurationAsWritten(config: Option<Config>, setup: Setup, password: Option<string>,
                                         loadError: (string, Option<string>) -> Option<string>)
    : (r: Result<Settings, ConfigError>)
    ensures config.None? ==> r == Failure(NullReference)
    ensures config.Some? ==> r == Load(config.value, setup, password, loadError)
  {
    if config.None? then Failure(NullReference)
    else Load(config.value, setup, password, loadError)
  }

  const JournalSectionMissing: string :=
    "RavenDB journal settings cannot be initialized, because required HOCON section couldn't be found"

  /** The as-written constructor never reaches its own ArgumentNullException. */
  lemma JournalNullCheckUnreachable(setup: Setup, password: Option<string>,
                                    loadError: (string, Option<string>) -> Option<string>)
    ensures JournalConfigurationAsWritten(None, setup, password, loadError) != Failure(ArgumentNullError("config", JournalSectionMissing))
  {
  }

  /** The constructor with the null check done before the section is read. */
  function JournalConfiguration(config: Option<Config>, setup: Setup, password: Option<string>,
                                loadError: (string, Option<string>) -> Option<string>)
    : (r: Result<Settings, ConfigError>)
    ensures config.None? <==> r == Failure(ArgumentNullError("config", JournalSectionMissing))
    ensures config.Some? ==> r == Load(config.value, setup, password, loadError)
  {
    if config.None? then Failure(ArgumentNullError("config", JournalSectionMissing))
    else
      LoadNeverNullError(config.value, setup, password, loadError);
      Load(config.value, setup, password, loadError)
  }

  lemma LoadNeverNullError(c: Config, setup: Setup, password: Option<string>,
                           loadError: (string, Option<string>) -> Option<string>)
    ensures !Load(c, setup, password, loadError).Failure? || !Load(c, setup, password, loadError).error.ArgumentNullError?
  {
    if "name" in c.strings && "urls" in c.stringLists {
      var v := if "http-version" in c.strings then c.strings["http-version"] else DefaultHttpVersion;
      ParseVersionErrors(v);
    }
  }

  lemma ParseVersionErrors(s: string)
    ensures ParseVersion(s).Failure? ==> !ParseVersion(s).error.ArgumentNullError?
  {
    ParseComponentsErrors(SplitOn(s, '.'));
  }

  lemma {:induction false} ParseComponentsErrors(parts: seq<string>)
    ensures ParseComponents(parts).Failure? ==>
              ParseComponents(parts).error in {VersionFormatError, VersionOverflowError, VersionComponentOutOfRange}
    decreases |parts|
  {
    if parts != [] { ParseComponentsErrors(parts[1..]); }
  }

  // ---- query settings ------------------------------------------------------

  datatype QuerySettings = QuerySettings(refreshInterval: int, maxBufferSize: int, waitForNonStale: bool)

  const QuerySectionMissing: string :=
    "RavenDB query settings cannot be initialized, because required HOCON section couldn't been found"

  /** `RavenDbQueryConfiguration`: a missing section is refused, then defaults apply. */
  function QueryConfiguration(config: Option<Config>): (r: Result<QuerySettings, ConfigError>)
    ensures config.None? <==> r == Failure(ArgumentNullError("config", QuerySectionMissing))
    ensures config.Some? ==> r.Success?
    ensures config.Some? && "refresh-interval" !in config.value.timeSpans ==> r.value.refreshInterval == 3 * TicksPerSecond
    ensures config.Some? && "max-buffer-size" !in config.value.ints ==> r.value.maxBufferSize == 65536
    ensures config.Some? && "wait-for-non-stale" !in config.value.booleans ==> !r.value.waitForNonStale
    ensures config.Some? && "refresh-interval" in config.value.timeSpans ==>
              r.value.refreshInterval == config.value.timeSpans["refresh-interval"]
    ensures config.Some? && "max-buffer-size" in config.value.ints ==>
              r.value.maxBufferSize == config.value.ints["max-buffer-size"]
    ensures config.Some? && "wait-for-non-stale" in config.value.booleans ==>
              r.value.waitForNonStale == config.value.booleans["wait-for-non-stale"]
  {
    if config.None? then Failure(ArgumentNullError("config", QuerySectionMissing))
    else
      var c := config.value;
      Success(QuerySettings(
        if "refresh-interval" in c.timeSpans then c.timeSpans["refresh-interval"] else 3 * TicksPerSecond,
        if "max-buffer-size" in c.ints then c.ints["max-buffer-size"] else 64 * 1024,
        "wait-for-non-stale" in c.booleans && c.booleans["wait-for-non-stale"]))
  }
}
