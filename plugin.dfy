/**
 * The plugin's bootstrap class: the autoloader that maps a class name to
 * the file defining it, and the upgrade routine that fires once per change
 * of the stored plugin version.
 *
 * The file system is the set of paths that exist; the options table holds
 * the stored version as a number.
 */
module Plugin {
  import opened Common

  // ------------------------------------------------------------ autoload

  const OwnPrefix := "ITELIC"
  const ThemePrefix := "IT_Theme_API"

  /** `str_replace("_", "-", strtolower($s))`. */
  function Dashed(s: string): (r: string)
    ensures |r| == |s|
    ensures '_' !in r
    ensures forall i :: 0 <= i < |s| ==> r[i] == (if LowerChar(s[i]) == '_' then '-' else LowerChar(s[i]))
  {
    ReplaceChar(ToLower(s), '_', '-')
  }

  /** The pieces of an own class name: lowercased after the six-letter prefix, split on `_`. */
  function OwnPieces(className: string): (pieces: seq<string>)
    ensures |pieces| >= 1
  {
    Split(ToLower(SubstrFrom(className, 6)), '_')
  }

  /**
   * The first file the autoloader looks for. Names outside the plugin's
   * prefix go to `lib/classes` or, for theme API classes, `api/theme`;
   * own names go under `lib`, their pieces but the last forming the
   * directory and the last the file name.
   */
  function CandidatePath(dir: string, className: string): (path: string)
  {
    if Prefix(className, 6) != OwnPrefix then
      if Prefix(className, 12) == ThemePrefix then dir + "api/theme" + "/class." + Dashed(SubstrFrom(className, 13)) + ".php"
      else dir + "lib/classes" + "/class." + Dashed(className) + ".php"
    else
      var pieces := OwnPieces(className);
      dir + "lib" + Join(pieces[..|pieces| - 1], "/") + "/class." + pieces[|pieces| - 1] + ".php"
  }

  /** One step of `Split`. */
  lemma SplitCons(c: char, t: string, sep: char)
    ensures Split([c] + t, sep) ==
            if c == sep then [""] + Split(t, sep)
            else [[c] + Split(t, sep)[0]] + Split(t, sep)[1..]
  {
    assert ([c] + t)[0] == c && ([c] + t)[1..] == t;
  }

  /** Splitting just before a last piece without separators. */
  lemma {:induction false} SplitLast(a: string, b: string, sep: char)
    requires sep !in b
    ensures Split(a + [sep] + b, sep) == Split(a, sep) + [b]
    decreases |a|
  {
    if a == [] {
      assert a + [sep] + b == [sep] + b;
      SplitCons(sep, b, sep);
      SplitWhole(b, sep);
    } else {
      var c, t := a[0], a[1..];
      assert a == [c] + t;
      assert a + [sep] + b == [c] + (t + [sep] + b);
      SplitCons(c, t + [sep] + b, sep);
      SplitCons(c, t, sep);
      SplitLast(t, b, sep);
      var rest := Split(t, sep);
      if c != sep {
        assert (rest + [b])[0] == rest[0];
        assert (rest + [b])[1..] == rest[1..] + [b];
      }
    }
  }

  /**
   * An own class name whose lowercased remainder is `a_n`, with no `_` in
   * `n`, lives in file `class.n.php` of directory `lib` followed by `a` with
   * every `_` turned into `/`.
   */
  lemma OwnLayout(dir: string, className: string, a: string, n: string)
    requires Prefix(className, 6) == OwnPrefix
    requires ToLower(SubstrFrom(className, 6)) == a + "_" + n && '_' !in n
    ensures CandidatePath(dir, className) == dir + "lib" + ReplaceChar(a, '_', '/') + "/class." + n + ".php"
  {
    SplitLast(a, n, '_');
    var pieces := OwnPieces(className);
    assert pieces == Split(a, '_') + [n];
    assert pieces[..|pieces| - 1] == Split(a, '_');
    JoinSplitReplaces(a, '_', '/');
  }

  /** Two strings with the same characters at every position are equal. */
  lemma SameChars(r: string, t: string)
    requires |r| == |t|
    requires forall i :: 0 <= i < |r| ==> r[i] == t[i]
    ensures r == t
  {
  }

  /** `t` is `s` lowercased when it is so character by character. */
  lemma LowerByChars(s: string, t: string)
    requires |s| == |t|
    requires forall i :: 0 <= i < |s| ==> t[i] == LowerChar(s[i])
    ensures ToLower(s) == t
  {
    SameChars(ToLower(s), t);
  }

  /** `t` is `s` lowercased and dashed when it is so character by character. */
  lemma DashedByChars(s: string, t: string)
    requires |s| == |t|
    requires forall i :: 0 <= i < |s| ==> t[i] == (if LowerChar(s[i]) == '_' then '-' else LowerChar(s[i]))
    ensures Dashed(s) == t
  {
    SameChars(Dashed(s), t);
  }

  lemma OwnExampleLower()
    ensures ToLower("_API_Key") == "_api" + "_" + "key"
  {
    var s, t := "_API_Key", "_api_key";
    forall i | 0 <= i < 8 ensures t[i] == LowerChar(s[i]) {
      if i == 0 {} else if i == 1 {} else if i == 2 {} else if i == 3 {}
      else if i == 4 {} else if i == 5 {} else if i == 6 {} else {}
    }
    LowerByChars(s, t);
    assert "_api_key" == "_api" + "_" + "key";
  }

  /** How `ITELIC_API_Key` splits: the plugin prefix, then `_API_Key`, whose directory part becomes `/api`. */
  lemma OwnExampleParts()
    ensures Prefix("ITELIC_API_Key", 6) == OwnPrefix
    ensures SubstrFrom("ITELIC_API_Key", 6) == "_API_Key"
    ensures ReplaceChar("_api", '_', '/') == "/api"
  {
  }

  /** `ITELIC_API_Key` is loaded from `lib/api/class.key.php`. */
  lemma OwnExample(dir: string)
    ensures CandidatePath(dir, "ITELIC_API_Key") == dir + "lib" + "/api" + "/class." + "key" + ".php"
  {
    OwnExampleParts();
    OwnExampleLower();
    OwnLayout(dir, "ITELIC_API_Key", "_api", "key");
  }

  /** `ITELIC_Key` is loaded from `lib/class.key.php`. */
  lemma FlatExample(dir: string)
    ensures CandidatePath(dir, "ITELIC_Key") == dir + "lib" + "/class." + "key" + ".php"
  {
    assert Prefix("ITELIC_Key", 6) == OwnPrefix;
    assert SubstrFrom("ITELIC_Key", 6) == "_Key";
    assert ToLower("_Key") == "_key";
    assert "_key" == "" + "_" + "key";
    OwnLayout(dir, "ITELIC_Key", "", "key");
    assert ReplaceChar("", '_', '/') == "";
    assert dir + "lib" + "" == dir + "lib";
  }

  lemma ThemeExampleGuards()
    ensures Prefix("IT_Theme_API_License", 6) != OwnPrefix
    ensures Prefix("IT_Theme_API_License", 12) == ThemePrefix
  {
    assert Prefix("IT_Theme_API_License", 6)[2] != OwnPrefix[2];
  }

  lemma ThemeExampleLower()
    ensures Dashed("License") == "license"
  {
    var s, t := "License", "license";
    forall i | 0 <= i < 7 ensures t[i] == (if LowerChar(s[i]) == '_' then '-' else LowerChar(s[i])) {
      if i == 0 {} else if i == 1 {} else if i == 2 {} else if i == 3 {}
      else if i == 4 {} else if i == 5 {} else {}
    }
    DashedByChars(s, t);
  }

  /** `IT_Theme_API_License` is loaded from `api/theme/class.license.php`. */
  lemma ThemeExample(dir: string)
    ensures CandidatePath(dir, "IT_Theme_API_License") == dir + "api/theme" + "/class." + "license" + ".php"
  {
    ThemeExampleGuards();
    assert SubstrFrom("IT_Theme_API_License", 13) == "License";
    ThemeExampleLower();
  }

  lemma OtherExampleGuards()
    ensures Prefix("WP_Error", 6) != OwnPrefix
    ensures Prefix("WP_Error", 12) != ThemePrefix
  {
    assert Prefix("WP_Error", 6)[0] != OwnPrefix[0];
    assert |Prefix("WP_Error", 12)| != |ThemePrefix|;
  }

  lemma OtherExampleDashed()
    ensures Dashed("WP_Error") == "wp-error"
  {
    var s, t := "WP_Error", "wp-error";
    forall i | 0 <= i < 8 ensures t[i] == (if LowerChar(s[i]) == '_' then '-' else LowerChar(s[i])) {
      if i == 0 {} else if i == 1 {} else if i == 2 {} else if i == 3 {}
      else if i == 4 {} else if i == 5 {} else if i == 6 {} else {}
    }
    DashedByChars(s, t);
  }

  /** A class from outside the plugin, `WP_Error`, is looked for as `lib/classes/class.wp-error.php`. */
  lemma OtherExample(dir: string)
    ensures CandidatePath(dir, "WP_Error") == dir + "lib/classes" + "/class." + "wp-error" + ".php"
  {
    OtherExampleGuards();
    OtherExampleDashed();
  }

  /** The three files tried, in order: `class.`, then `abstract.`, then `interface.`. */
  function Candidates(path: string): (c: seq<string>)
    ensures |c| == 3 && c[0] == path
  {
    [path, ReplaceAll(path, "class.", "abstract."), ReplaceAll(path, "class.", "interface.")]
  }

  /** No occurrence of `class.` can start in `p` and run on into the `/` that follows it. */
  lemma NoStraddle(p: string, rest: string)
    requires forall i :: 0 <= i < |p| ==> !OccursAt(p, "class.", i)
    ensures forall i :: 0 <= i < |p| ==> !OccursAt(p + "/" + rest, "class.", i)
  {
    var s := p + "/" + rest;
    forall i | 0 <= i < |p| ensures !OccursAt(s, "class.", i) {
      if i + 6 <= |p| {
        assert s[i..i + 6] == p[i..i + 6];
        assert !OccursAt(p, "class.", i);
      } else if i + 6 <= |s| {
        var k := |p| - i;
        assert s[i..i + 6][k] == s[|p|] == '/';
        assert "class."[k] != '/';
      }
    }
  }

  /** Replacing `class.` in `p/class.m`, where neither `p` nor `m` contains it, swaps just the file-name prefix. */
  lemma SwapClassPrefixIn(p: string, m: string, rep: string)
    requires forall i :: 0 <= i < |p| ==> !OccursAt(p, "class.", i)
    requires forall i :: 0 <= i < |m| ==> !OccursAt(m, "class.", i)
    ensures ReplaceAll(p + ("/" + ("class." + m)), "class.", rep) == p + ("/" + (rep + m))
  {
    var tail := "class." + m;
    NoStraddle(p, tail);
    assert p + "/" + tail == p + ("/" + tail);
    ReplaceAllSkip(p, "/" + tail, "class.", rep);
    SwapAfterSlash(tail, m, rep);
  }

  lemma SwapAfterSlash(tail: string, m: string, rep: string)
    requires tail == "class." + m
    requires forall i :: 0 <= i < |m| ==> !OccursAt(m, "class.", i)
    ensures ReplaceAll("/" + tail, "class.", rep) == "/" + (rep + m)
  {
    assert !OccursAt("/" + tail, "class.", 0) by {
      assert ("/" + tail)[0] == '/';
    }
    ReplaceAllSkip("/", tail, "class.", rep);
    ReplaceAllHead("class.", m, rep);
    ReplaceAllNone(m, "class.", rep);
  }

  /** The path of a file named `class.n.php` with the prefix swapped. */
  lemma SwapClassPrefix(p: string, n: string, rep: string)
    requires forall i :: 0 <= i < |p| ==> !OccursAt(p, "class.", i)
    requires forall i :: 0 <= i < |n + ".php"| ==> !OccursAt(n + ".php", "class.", i)
    ensures ReplaceAll(p + "/class." + n + ".php", "class.", rep) == p + "/" + rep + n + ".php"
  {
    var m := n + ".php";
    var x := p + "/class." + n + ".php";
    var y := p + ("/" + ("class." + m));
    assert x == y by {
      Regroup4(p, "/class.", n, ".php");
      Regroup3("/", "class.", m);
      assert "/" + "class." == "/class.";
    }
    SwapClassPrefixIn(p, m, rep);
    Regroup5(p, "/", rep, n, ".php");
  }

  /*
   * A path built left to right equals the same pieces grouped from the right.
   * These are kept apart so that SwapClassPrefix reasons about one grouping at a time.
   */

  lemma Regroup3(a: string, b: string, c: string)
    ensures a + b + c == a + (b + c)
  {
  }

  lemma Regroup4(a: string, b: string, c: string, d: string)
    ensures a + b + c + d == a + (b + (c + d))
  {
  }

  lemma Regroup5(a: string, b: string, c: string, d: string, e: string)
    ensures a + b + c + d + e == a + (b + (c + (d + e)))
  {
  }

  /**
   * When `class.` occurs only as the file-name prefix, the second and third
   * candidates are the same file with `abstract.` and `interface.` in its place.
   */
  lemma CandidateNames(p: string, n: string)
    requires forall i :: 0 <= i < |p| ==> !OccursAt(p, "class.", i)
    requires forall i :: 0 <= i < |n + ".php"| ==> !OccursAt(n + ".php", "class.", i)
    ensures Candidates(p + "/class." + n + ".php") ==
              [p + "/class." + n + ".php", p + "/abstract." + n + ".php", p + "/interface." + n + ".php"]
  {
    SwapClassPrefix(p, n, "abstract.");
    SwapClassPrefix(p, n, "interface.");
    assert p + "/" + "abstract." + n + ".php" == p + ("/" + "abstract.") + n + ".php";
    assert p + "/" + "interface." + n + ".php" == p + ("/" + "interface.") + n + ".php";
    assert "/" + "abstract." == "/abstract." && "/" + "interface." == "/interface.";
  }

  /** The file required: the first candidate that exists, or none. */
  function Probe(path: string, files: set<string>): (r: Option<string>)
    ensures r.None? <==> forall i :: 0 <= i < 3 ==> Candidates(path)[i] !in files
    ensures r.Some? ==> exists i :: 0 <= i < 3 && r.value == Candidates(path)[i] &&
                                   r.value in files && forall j :: 0 <= j < i ==> Candidates(path)[j] !in files
  {
    var c := Candidates(path);
    if c[0] in files then Some(c[0])
    else if c[1] in files then Some(c[1])
    else if c[2] in files then Some(c[2])
    else None
  }

  /**
   * `autoload`: the path is built up by successive assignments and the
   * candidates are tried in order; at most one file is required.
   */
  method Autoload(dir: string, className: string, files: set<string>) returns (required: Option<string>)
    ensures required == Probe(CandidatePath(dir, className), files)
  {
    var path: string;
    var name: string;
    if Prefix(className, 6) != OwnPrefix {
      if Prefix(className, 12) == ThemePrefix {
        path := dir + "api/theme";
        var cls := ToLower(SubstrFrom(className, 13));
        name := ReplaceChar(cls, '_', '-');
      } else {
        path := dir + "lib/classes";
        var cls := ToLower(className);
        name := ReplaceChar(cls, '_', '-');
      }
    } else {
      path := dir + "lib";
      var cls := SubstrFrom(className, 6);
      cls := ToLower(cls);
      var parts := Split(cls, '_');
      name := parts[|parts| - 1];
      parts := parts[..|parts| - 1];
      path := path + Join(parts, "/");
    }
    path := path + "/class." + name + ".php";
    assert path == CandidatePath(dir, className);
    var c := Candidates(path);
    if c[0] in files {
      return Some(c[0]);
    }
    if c[1] in files {
      return Some(c[1]);
    }
    if c[2] in files {
      return Some(c[2]);
    }
    required := None;
  }

  // ------------------------------------------------------------- upgrade

  /** The plugin version. */
  const Version: real := 1.0

  /** The version taken when none is stored. */
  const DefaultVersion: real := 0.1

  /**
   * One run of the upgrade check: whether the upgrade hook fires, and the
   * stored version afterwards.
   */
  function UpgradeStep(stored: Option<real>): (r: (bool, Option<real>))
    ensures r.0 <==> stored.GetOr(DefaultVersion) != Version
    ensures r.0 ==> r.1 == Some(Version)
    ensures !r.0 ==> r.1 == stored
  {
    var current := stored.GetOr(DefaultVersion);
    if current != Version then (true, Some(Version)) else (false, stored)
  }

  /** A fresh install fires once; the next run finds the current version and does nothing. */
  lemma UpgradeOnce(stored: Option<real>)
    ensures UpgradeStep(None).0
    ensures !UpgradeStep(UpgradeStep(stored).1).0
    ensures UpgradeStep(UpgradeStep(stored).1) == (false, UpgradeStep(stored).1)
  {
  }

  /** The options table entry `itelic_version` and the upgrade hook's calls. */
  class Options {
    var storedVersion: Option<real>
    /** Each firing of `itelic_upgrade`, as (new version, previous version). */
    var upgrades: seq<(real, real)>

    constructor (stored: Option<real>)
      ensures storedVersion == stored && upgrades == []
    {
      storedVersion := stored;
      upgrades := [];
    }

    /** `upgrade`: fire the hook with the versions and store the new one, only when they differ. */
    method Upgrade()
      modifies this
      ensures (storedVersion, |upgrades| > |old(upgrades)|) == (UpgradeStep(old(storedVersion)).1, UpgradeStep(old(storedVersion)).0)
      ensures UpgradeStep(old(storedVersion)).0 ==>
                upgrades == old(upgrades) + [(Version, old(storedVersion).GetOr(DefaultVersion))]
      ensures !UpgradeStep(old(storedVersion)).0 ==> upgrades == old(upgrades)
    {
      var current := storedVersion.GetOr(DefaultVersion);
      if current != Version {
        upgrades := upgrades + [(Version, current)];
        storedVersion := Some(Version);
      }
    }
  }
}
