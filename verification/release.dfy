/**
 * The pure parts of the release script: the semantic-version bump, the
 * `KEY=VALUE` parsing of a `.env` file, and the choice of the upload token.
 * File contents and the process environment are passed in as values.
 */
module Release {
  import opened Wrappers
  import Text

  /** A `major.minor.patch` version; Python's `int()` also admits negative components. */
  datatype Version = Version(major: int, minor: int, patch: int)

  /** The errors `increment_version` raises, both `ValueError` in `release.py`. */
  datatype VersionError = MalformedVersion | InvalidVersionType(versionType: string)

  /** Strict (major, minor, patch) lexicographic order. */
  predicate Older(a: Version, b: Version) {
    || a.major < b.major
    || (a.major == b.major && a.minor < b.minor)
    || (a.major == b.major && a.minor == b.minor && a.patch < b.patch)
  }

  /** `major, minor, patch = map(int, version.split('.'))`: exactly three integer components. */
  function ParseVersion(s: string): (r: Option<Version>)
    ensures r.Some? ==> |Text.Split(s, '.')| == 3
  {
    var parts := Text.Split(s, '.');
    if |parts| != 3 then None
    else match (Text.ParseInt(parts[0]), Text.ParseInt(parts[1]), Text.ParseInt(parts[2]))
      case (Some(major), Some(minor), Some(patch)) => Some(Version(major, minor, patch))
      case _ => None
  }

  /** `f"{major}.{minor}.{patch}"`. */
  function FormatVersion(v: Version): string {
    Text.ShowInt(v.major) + "." + Text.ShowInt(v.minor) + "." + Text.ShowInt(v.patch)
  }

  /** Reading back a formatted version gives the version. */
  lemma ParseFormatVersion(v: Version)
    ensures ParseVersion(FormatVersion(v)) == Some(v)
  {
    var a, b, c := Text.ShowInt(v.major), Text.ShowInt(v.minor), Text.ShowInt(v.patch);
    assert '.' !in a && '.' !in b && '.' !in c;
    assert Text.Join([a, b, c], '.') == FormatVersion(v) by {
      assert Text.Join([b, c], '.') == b + "." + c;
    }
    Text.SplitJoin([a, b, c], '.');
    Text.ParseShowInt(v.major);
    Text.ParseShowInt(v.minor);
    Text.ParseShowInt(v.patch);
  }

  /** The version a bump of the given type leads to, or `None` for an unknown type. */
  function Bump(v: Version, versionType: string): (w: Option<Version>)
    ensures w.Some? <==> versionType in {"major", "minor", "patch"}
    ensures w.Some? ==> Older(v, w.value)
  {
    if versionType == "major" then Some(Version(v.major + 1, 0, 0))
    else if versionType == "minor" then Some(Version(v.major, v.minor + 1, 0))
    else if versionType == "patch" then Some(Version(v.major, v.minor, v.patch + 1))
    else None
  }

  /**
   * `increment_version`: a version that is not three integers is rejected
   * first; then 'major' gives `(M+1).0.0`, 'minor' gives `M.(m+1).0`,
   * 'patch' gives `M.m.(p+1)`, and any other type is rejected.
   */
  function IncrementVersion(version: string, versionType: string): (r: Result<string, VersionError>)
    ensures ParseVersion(version).None? ==> r == Err(MalformedVersion)
    ensures ParseVersion(version).Some? && versionType !in {"major", "minor", "patch"} ==>
              r == Err(InvalidVersionType(versionType))
    ensures r.Ok? <==> versionType in {"major", "minor", "patch"} && ParseVersion(version).Some?
    ensures r.Ok? ==> var v := ParseVersion(version).value;
                      && ParseVersion(r.value).Some?
                      && var w := ParseVersion(r.value).value;
                      && Older(v, w)
                      && (versionType == "major" ==> w == Version(v.major + 1, 0, 0))
                      && (versionType == "minor" ==> w == Version(v.major, v.minor + 1, 0))
                      && (versionType == "patch" ==> w == Version(v.major, v.minor, v.patch + 1))
    ensures r.Ok? ==> r.value == FormatVersion(ParseVersion(r.value).value)
  {
    match ParseVersion(version)
    case None => Err(MalformedVersion)
    case Some(v) =>
      match Bump(v, versionType)
      case None => Err(InvalidVersionType(versionType))
      case Some(w) =>
        ParseFormatVersion(w);
        Ok(FormatVersion(w))
  }

  /** A version part that starts with a separator is not an integer to `int()`, so the version is malformed. */
  lemma SeparatorMakesVersionMalformed()
    ensures IncrementVersion("\U{1C}1.2.3", "patch") == Err(MalformedVersion)
  {
    var parts := ["\U{1C}1", "2", "3"];
    assert Text.Join(parts, '.') == "\U{1C}1.2.3";
    Text.SplitJoin(parts, '.');
    Text.ParseIntSeparatorMargin();
  }

  /** `int()` reads `01` as 1, so `01.2.3` is version 1.2.3. */
  lemma LeadingZeroVersion()
    ensures ParseVersion("01.2.3") == Some(Version(1, 2, 3))
  {
    var parts := ["01", "2", "3"];
    assert Text.Join(parts, '.') == "01.2.3";
    Text.SplitJoin(parts, '.');
    Text.ParseIntLeadingZero();
    assert Text.ShowInt(2) == "2" && Text.ShowInt(3) == "3";
    Text.ParseShowInt(2);
    Text.ParseShowInt(3);
  }

  /** `f"{1}.{2}.{4}"` is `1.2.4`. */
  lemma Formatted124()
    ensures FormatVersion(Version(1, 2, 4)) == "1.2.4"
  {
    assert Text.ShowInt(1) == "1" && Text.ShowInt(2) == "2" && Text.ShowInt(4) == "4";
  }

  /** Every spelling of version 1.2.3 that `int()` accepts bumps, as a patch, to the canonical `1.2.4`. */
  lemma PatchOfAnySpelling()
    ensures forall version :: ParseVersion(version) == Some(Version(1, 2, 3)) ==>
              IncrementVersion(version, "patch") == Ok("1.2.4")
  {
    forall version | ParseVersion(version) == Some(Version(1, 2, 3))
      ensures IncrementVersion(version, "patch") == Ok("1.2.4")
    {
      assert Bump(Version(1, 2, 3), "patch") == Some(Version(1, 2, 4));
      assert IncrementVersion(version, "patch") == Ok(FormatVersion(Version(1, 2, 4)));
      Formatted124();
    }
  }

  /** The bumped version is written in canonical form: `01.2.3` becomes `1.2.4`. */
  lemma LeadingZeroDropped()
    ensures IncrementVersion("01.2.3", "patch") == Ok("1.2.4")
  {
    LeadingZeroVersion();
    PatchOfAnySpelling();
  }

  /** Bumping a formatted version formats the bumped version. */
  lemma IncrementFormatted(v: Version, versionType: string)
    requires versionType in {"major", "minor", "patch"}
    ensures IncrementVersion(FormatVersion(v), versionType) == Ok(FormatVersion(Bump(v, versionType).value))
  {
    ParseFormatVersion(v);
  }

  /** The examples of the script's help text: 0.1.0 to 0.1.1, 0.1.1 to 0.2.0, 0.2.0 to 1.0.0. */
  lemma HelpTextExamples()
    ensures IncrementVersion("0.1.0", "patch") == Ok("0.1.1")
    ensures IncrementVersion("0.1.1", "minor") == Ok("0.2.0")
    ensures IncrementVersion("0.2.0", "major") == Ok("1.0.0")
  {
    assert Text.ShowInt(0) == "0" && Text.ShowInt(1) == "1" && Text.ShowInt(2) == "2";
    assert FormatVersion(Version(0, 1, 0)) == "0.1.0";
    assert FormatVersion(Version(0, 1, 1)) == "0.1.1";
    assert FormatVersion(Version(0, 2, 0)) == "0.2.0";
    assert FormatVersion(Version(1, 0, 0)) == "1.0.0";
    IncrementFormatted(Version(0, 1, 0), "patch");
    IncrementFormatted(Version(0, 1, 1), "minor");
    IncrementFormatted(Version(0, 2, 0), "major");
  }

  /** A `.env` entry. */
  datatype Binding = Binding(key: string, value: string)

  /**
   * One line of `load_env`: after stripping, blank lines, comments and lines
   * without '=' give nothing; otherwise the line splits at its first '=' and
   * both sides are stripped.
   */
  function ParseEnvLine(line: string): (r: Option<Binding>)
    ensures r.None? <==> var t := Text.Strip(line); t == [] || t[0] == '#' || '=' !in t
    ensures r.Some? ==> var t := Text.Strip(line); var i := Text.IndexOf(t, '=');
                        && r.value.key == Text.Strip(t[..i])
                        && r.value.value == Text.Strip(t[i + 1..])
  {
    var t := Text.Strip(line);
    if t == [] || t[0] == '#' then None
    else if '=' !in t then None
    else
      var i := Text.IndexOf(t, '=');
      Some(Binding(Text.Strip(t[..i]), Text.Strip(t[i + 1..])))
  }

  /**
   * A line written as `key=value` reads back as that binding, as long as the
   * key has no '=' and does not start a comment and neither side has
   * surrounding whitespace. The value may itself contain '='.
   */
  lemma ParseEnvLineWritten(key: string, value: string)
    requires '=' !in key && (key == [] || key[0] != '#')
    requires Text.Trimmed(key) && Text.Trimmed(value)
    ensures ParseEnvLine(key + "=" + value) == Some(Binding(key, value))
  {
    var line := key + "=" + value;
    assert Text.Strip(line) == line by {
      assert line[|key|] == '=';
      assert |key| > 0 ==> line[0] == key[0];
      assert |value| > 0 ==> line[|line| - 1] == value[|value| - 1];
      Text.StripTrimmed(line);
    }
    assert line != [] && line[0] != '#' && '=' in line by {
      assert line[|key|] == '=';
    }
    assert Text.IndexOf(line, '=') == |key| by {
      Text.IndexOfAfter(key, '=', value);
    }
    assert Text.Strip(line[..|key|]) == key by {
      assert line[..|key|] == key;
      Text.StripTrimmed(key);
    }
    assert Text.Strip(line[|key| + 1..]) == value by {
      assert line[|key| + 1..] == value;
      Text.StripTrimmed(value);
    }
  }

  /** Line by line, what `load_env` reads from each line of the file. */
  function EnvBindings(lines: seq<string>): (bindings: seq<Option<Binding>>)
    ensures |bindings| == |lines|
    ensures forall i :: 0 <= i < |lines| ==> bindings[i] == ParseEnvLine(lines[i])
  {
    seq(|lines|, i requires 0 <= i < |lines| => ParseEnvLine(lines[i]))
  }

  /** `load_env` over the lines of the file; a missing file is no lines. */
  function LoadEnv(lines: seq<string>): (env: map<string, string>)
    ensures |lines| == 0 ==> env == map[]
    ensures forall key :: key in env <==> exists i :: 0 <= i < |lines| && BindsAt(EnvBindings(lines), i, key)
  {
    var env := Collect(EnvBindings(lines));
    assert forall key :: key in env <==> exists i :: 0 <= i < |lines| && BindsAt(EnvBindings(lines), i, key) by {
      forall key ensures key in env <==> exists i :: 0 <= i < |lines| && BindsAt(EnvBindings(lines), i, key) {
        CollectLastBindingWins(EnvBindings(lines), key);
      }
    }
    env
  }

  /** The bindings entered into the map in order, so that a later binding of a key overrides an earlier one. */
  function Collect(bindings: seq<Option<Binding>>): map<string, string> {
    if |bindings| == 0 then map[]
    else
      var env := Collect(bindings[..|bindings| - 1]);
      match bindings[|bindings| - 1]
      case None => env
      case Some(b) => env[b.key := b.value]
  }

  /** Entry `i` binds `key`. */
  predicate BindsAt(bindings: seq<Option<Binding>>, i: nat, key: string)
    requires i < |bindings|
  {
    bindings[i].Some? && bindings[i].value.key == key
  }

  /**
   * A key is in the collected map exactly when some entry binds it, and its
   * value is the one of the last entry that binds it.
   */
  lemma {:induction false} CollectLastBindingWins(bindings: seq<Option<Binding>>, key: string)
    ensures key in Collect(bindings) <==> exists i :: 0 <= i < |bindings| && BindsAt(bindings, i, key)
    ensures key in Collect(bindings) ==>
              exists i :: && 0 <= i < |bindings| && BindsAt(bindings, i, key)
                          && bindings[i].value.value == Collect(bindings)[key]
                          && forall j :: i < j < |bindings| ==> !BindsAt(bindings, j, key)
    decreases |bindings|
  {
    if |bindings| > 0 {
      var n := |bindings| - 1;
      var before := bindings[..n];
      CollectLastBindingWins(before, key);
      assert forall i :: 0 <= i < n ==> before[i] == bindings[i];
      if BindsAt(bindings, n, key) {
        assert Collect(bindings)[key] == bindings[n].value.value;
      } else {
        assert Collect(bindings) == Collect(before) || (bindings[n].Some? && bindings[n].value.key != key
          && Collect(bindings) == Collect(before)[bindings[n].value.key := bindings[n].value.value]);
        assert key in Collect(bindings) <==> key in Collect(before);
        forall i | 0 <= i < |bindings| && BindsAt(bindings, i, key) ensures i < n && BindsAt(before, i, key) {
        }
        if key in Collect(bindings) {
          var i :| && 0 <= i < n && BindsAt(before, i, key)
                   && before[i].value.value == Collect(before)[key]
                   && forall j :: i < j < n ==> !BindsAt(before, j, key);
          assert BindsAt(bindings, i, key);
        }
      }
    }
  }

  /**
   * A key is in the loaded map exactly when some line binds it, and its value
   * is the one given by the last line that binds it.
   */
  lemma LoadEnvLastBindingWins(lines: seq<string>, key: string)
    ensures var bindings := EnvBindings(lines);
            && (key in LoadEnv(lines) <==> exists i :: 0 <= i < |lines| && BindsAt(bindings, i, key))
            && (key in LoadEnv(lines) ==>
                  exists i :: && 0 <= i < |lines| && BindsAt(bindings, i, key)
                              && bindings[i].value.value == LoadEnv(lines)[key]
                              && forall j :: i < j < |lines| ==> !BindsAt(bindings, j, key))
  {
    CollectLastBindingWins(EnvBindings(lines), key);
  }

  /** The token's key: `TEST_PYPI_TOKEN` in test mode, `PYPI_TOKEN` otherwise. */
  function TokenKey(testMode: bool): string {
    if testMode then "TEST_PYPI_TOKEN" else "PYPI_TOKEN"
  }

  /**
   * `env_vars.get(key) or os.environ.get(key)`: a non-empty value from the
   * `.env` map wins; otherwise the process environment decides, and a key it
   * lacks gives `None`.
   */
  function SelectToken(testMode: bool, dotenv: map<string, string>, environ: map<string, string>): (r: Option<string>)
    ensures var k := TokenKey(testMode);
            && (k in dotenv && dotenv[k] != "" ==> r == Some(dotenv[k]))
            && (!(k in dotenv && dotenv[k] != "") && k in environ ==> r == Some(environ[k]))
            && (!(k in dotenv && dotenv[k] != "") && k !in environ ==> r == None)
  {
    var key := TokenKey(testMode);
    if key in dotenv && dotenv[key] != "" then Some(dotenv[key])
    else if key in environ then Some(environ[key])
    else None
  }

  /** `get_pypi_token`: the token selected from the parsed `.env` lines and the environment. */
  function GetPypiToken(testMode: bool, envFile: seq<string>, environ: map<string, string>): (r: Option<string>)
    ensures r.None? ==> TokenKey(testMode) !in environ
    ensures r.Some? && r.value == "" ==> TokenKey(testMode) in environ && environ[TokenKey(testMode)] == ""
    ensures r.Some? ==> r.value in LoadEnv(envFile).Values || r.value in environ.Values
  {
    SelectToken(testMode, LoadEnv(envFile), environ)
  }

  /**
   * A `.env` file whose last `KEY=token` line for the mode's key carries a
   * non-empty token supplies that token, whatever the environment holds.
   */
  lemma GetPypiTokenPrefersFile(testMode: bool, envFile: seq<string>, environ: map<string, string>, i: nat)
    requires var bindings := EnvBindings(envFile);
             && i < |envFile| && BindsAt(bindings, i, TokenKey(testMode)) && bindings[i].value.value != ""
             && forall j :: i < j < |envFile| ==> !BindsAt(bindings, j, TokenKey(testMode))
    ensures GetPypiToken(testMode, envFile, environ) == Some(EnvBindings(envFile)[i].value.value)
  {
    LoadEnvLastValue(envFile, TokenKey(testMode), i);
  }

  /** A `.env` file whose last `KEY=token` line for the mode's key is empty leaves the choice to the environment. */
  lemma GetPypiTokenEmptyInFile(testMode: bool, envFile: seq<string>, environ: map<string, string>, i: nat)
    requires var bindings := EnvBindings(envFile);
             && i < |envFile| && BindsAt(bindings, i, TokenKey(testMode)) && bindings[i].value.value == ""
             && forall j :: i < j < |envFile| ==> !BindsAt(bindings, j, TokenKey(testMode))
    ensures var k := TokenKey(testMode);
            GetPypiToken(testMode, envFile, environ) == (if k in environ then Some(environ[k]) else None)
  {
    LoadEnvLastValue(envFile, TokenKey(testMode), i);
  }

  /** A `.env` file that never binds the mode's key leaves the choice to the environment. */
  lemma GetPypiTokenMissingInFile(testMode: bool, envFile: seq<string>, environ: map<string, string>)
    requires forall i :: 0 <= i < |envFile| ==> !BindsAt(EnvBindings(envFile), i, TokenKey(testMode))
    ensures var k := TokenKey(testMode);
            GetPypiToken(testMode, envFile, environ) == (if k in environ then Some(environ[k]) else None)
  {
    LoadEnvLastBindingWins(envFile, TokenKey(testMode));
  }

  /** The value collected for a key is the one of the last entry that binds it. */
  lemma LastBindingValue(bindings: seq<Option<Binding>>, key: string, i: nat)
    requires i < |bindings| && BindsAt(bindings, i, key)
    requires forall j :: i < j < |bindings| ==> !BindsAt(bindings, j, key)
    ensures key in Collect(bindings) && Collect(bindings)[key] == bindings[i].value.value
  {
    CollectLastBindingWins(bindings, key);
    var last :| && 0 <= last < |bindings| && BindsAt(bindings, last, key)
                && bindings[last].value.value == Collect(bindings)[key]
                && forall j :: last < j < |bindings| ==> !BindsAt(bindings, j, key);
    assert last == i;
  }

  /** The value loaded for a key is the one given by the last line that binds it. */
  lemma LoadEnvLastValue(lines: seq<string>, key: string, i: nat)
    requires i < |lines| && BindsAt(EnvBindings(lines), i, key)
    requires forall j :: i < j < |lines| ==> !BindsAt(EnvBindings(lines), j, key)
    ensures key in LoadEnv(lines) && LoadEnv(lines)[key] == EnvBindings(lines)[i].value.value
  {
    LastBindingValue(EnvBindings(lines), key, i);
  }
}
