/**
 * Where a mapping's link goes: the platform branch of its destination is
 * chosen, then the placeholders `$UNIX_CONFIG`, `$CONFIG` and `$HOME` are
 * rewritten by three successive global replacements. The home and per-user
 * configuration directories and the platform are inputs.
 */
module Resolver {
  import opened Text
  import opened Paths

  datatype Platform = MacOS | Linux

  /** A destination: one string, or one per platform. */
  datatype OsOrString = Os(macos: string, linux: string) | String(value: string)

  /** One declared mapping: a path relative to the repository and a destination. */
  datatype Location = Location(from: Path, to: OsOrString)

  /** The host facts the resolver reads. */
  datatype Env = Env(platform: Platform, home: Path, configDir: Path)

  const UnixConfigToken: string := "$UNIX_CONFIG"
  const ConfigToken: string := "$CONFIG"
  const HomeToken: string := "$HOME"

  /** The branch of a destination that applies on `platform`. */
  function SelectDestination(to: OsOrString, platform: Platform): string
  {
    match to
    case String(s) => s
    case Os(macos, linux) => if platform == MacOS then macos else linux
  }

  /** `format_path`: the three replacements, each applied to the previous result. */
  function FormatPath(s: string, home: Path, configDir: Path): string
  {
    var s1 := ReplaceAll(s, UnixConfigToken, Join(home, ".config"));
    var s2 := ReplaceAll(s1, ConfigToken, configDir);
    ReplaceAll(s2, HomeToken, home)
  }

  /** `format_location`: the destination of a mapping on the host `env`. */
  function FormatLocation(loc: Location, env: Env): string
  {
    FormatPath(SelectDestination(loc.to, env.platform), env.home, env.configDir)
  }

  /**
   * A per-platform destination resolves from its macOS string on macOS and
   * from its Linux string on Linux, whatever the other string is; a single
   * string goes to `FormatPath` as it is.
   */
  lemma PlatformSelection(from: Path, macos: string, linux: string, home: Path, configDir: Path)
    ensures FormatLocation(Location(from, Os(macos, linux)), Env(MacOS, home, configDir)) == FormatPath(macos, home, configDir)
    ensures FormatLocation(Location(from, Os(macos, linux)), Env(Linux, home, configDir)) == FormatPath(linux, home, configDir)
    ensures forall p :: FormatLocation(Location(from, String(macos)), Env(p, home, configDir)) == FormatPath(macos, home, configDir)
  {
  }

  /** A string with none of the three placeholders, the empty one included, comes back unchanged. */
  lemma FormatPathWithoutPlaceholders(s: string, home: Path, configDir: Path)
    requires !Contains(s, UnixConfigToken) && !Contains(s, ConfigToken) && !Contains(s, HomeToken)
    ensures FormatPath(s, home, configDir) == s
  {
    ReplaceAllWithoutMatch(s, UnixConfigToken, Join(home, ".config"));
    ReplaceAllWithoutMatch(s, ConfigToken, configDir);
    ReplaceAllWithoutMatch(s, HomeToken, home);
  }

  /** Each pass is the text split on its placeholder and joined with the directory. */
  lemma FormatPathBySplitting(s: string, home: Path, configDir: Path)
    ensures var s1 := Implode(Join(home, ".config"), Explode(UnixConfigToken, s));
            var s2 := Implode(configDir, Explode(ConfigToken, s1));
            FormatPath(s, home, configDir) == Implode(home, Explode(HomeToken, s2))
  {
    var s1 := ReplaceAll(s, UnixConfigToken, Join(home, ".config"));
    ReplaceAllIsImplodeExplode(s, UnixConfigToken, Join(home, ".config"));
    ReplaceAllIsImplodeExplode(s1, ConfigToken, configDir);
    ReplaceAllIsImplodeExplode(ReplaceAll(s1, ConfigToken, configDir), HomeToken, home);
  }

  /** An empty destination resolves to the empty string, the "not on this platform" mark. */
  lemma EmptyDestinationResolvesEmpty(from: Path, env: Env)
    ensures FormatLocation(Location(from, String("")), env) == ""
    ensures env.platform == MacOS ==> forall l :: FormatLocation(Location(from, Os("", l)), env) == ""
    ensures env.platform == Linux ==> forall m :: FormatLocation(Location(from, Os(m, "")), env) == ""
  {
    assert !Contains("", UnixConfigToken) && !Contains("", ConfigToken) && !Contains("", HomeToken);
    FormatPathWithoutPlaceholders("", env.home, env.configDir);
  }

  /** No `$` in `s`, so no placeholder can start in it. */
  predicate NoDollar(s: string)
  {
    forall i :: 0 <= i < |s| ==> s[i] != '$'
  }

  /**
   * Both placeholders of a destination such as `$HOME/.config/$UNIX_CONFIG`
   * are rewritten to paths under the home directory: `$HOME` to the home
   * directory and `$UNIX_CONFIG` to its `.config` subdirectory.
   */
  lemma {:induction false} FormatPathHomeAndUnixConfig(mid: string, home: Path, configDir: Path)
    requires NoDollar(mid) && NoDollar(home) && |home| > 0 && home[|home| - 1] != '/'
    ensures FormatPath(HomeToken + mid + UnixConfigToken, home, configDir) == home + mid + home + "/.config"
  {
    var unix := Join(home, ".config");
    assert unix == home + "/.config";
    var rest := mid + unix;
    UnixConfigPassAfterHome(mid, unix);
    HomeOnlyPasses(home, configDir, rest);
    assert home + rest == home + mid + home + "/.config";
  }

  /** The `$UNIX_CONFIG` pass on `$HOME<mid>$UNIX_CONFIG` rewrites only the trailing placeholder. */
  lemma UnixConfigPassAfterHome(mid: string, unix: string)
    requires NoDollar(mid)
    ensures ReplaceAll(HomeToken + mid + UnixConfigToken, UnixConfigToken, unix) == HomeToken + (mid + unix)
  {
    var s := HomeToken + mid + UnixConfigToken;
    var plain := "HOME" + mid;
    assert s == "$" + (plain + UnixConfigToken);
    assert !MatchesAt(s, UnixConfigToken, 0) by {
      if 12 <= |s| {
        assert s[0..12][1] == 'H';
      }
    }
    ReplaceAllNoMatchStep(s, UnixConfigToken, unix);
    assert s[1..] == plain + UnixConfigToken;
    ReplaceAllSkipsPrefix(plain, UnixConfigToken, UnixConfigToken, unix);
    ReplaceAllAtMatch(UnixConfigToken, "", unix);
    assert UnixConfigToken + "" == UnixConfigToken;
    assert "$" + (plain + unix) == HomeToken + (mid + unix);
  }

  /** When `$HOME` is followed by text without `$`, the `$CONFIG` pass changes nothing and the `$HOME` pass rewrites it. */
  lemma HomeOnlyPasses(home: Path, configDir: Path, rest: string)
    requires NoDollar(rest)
    ensures ReplaceAll(HomeToken + rest, ConfigToken, configDir) == HomeToken + rest
    ensures ReplaceAll(HomeToken + rest, HomeToken, home) == home + rest
  {
    NoMatchWithoutFirstPair(HomeToken + rest, ConfigToken);
    ReplaceAllWithoutMatch(HomeToken + rest, ConfigToken, configDir);
    NoMatchWithoutFirstChar(rest, HomeToken);
    ReplaceAllWithoutMatch(rest, HomeToken, home);
    ReplaceAllAtMatch(HomeToken, rest, home);
  }

  /**
   * Later passes scan the text earlier passes inserted: with a home directory
   * whose name holds `$CONFIG`, the `$UNIX_CONFIG` expansion is rewritten again
   * by the `$CONFIG` pass.
   */
  lemma {:induction false} FormatPathRescansInsertedText(prefix: Path, configDir: Path)
    requires NoDollar(prefix) && NoDollar(configDir)
    ensures FormatPath(UnixConfigToken, prefix + ConfigToken, configDir) == prefix + configDir + "/.config"
  {
    var home := prefix + ConfigToken;
    var s1 := prefix + (ConfigToken + "/.config");
    assert Join(home, ".config") == s1;
    assert ReplaceAll(UnixConfigToken, UnixConfigToken, s1) == s1 by {
      ReplaceAllAtMatch(UnixConfigToken, "", s1);
      assert UnixConfigToken + "" == UnixConfigToken;
    }
    // Second pass: the `$CONFIG` inside the inserted home path is found.
    var s2 := prefix + configDir + "/.config";
    assert ReplaceAll(s1, ConfigToken, configDir) == s2 by {
      ReplaceAllSkipsPrefix(prefix, ConfigToken + "/.config", ConfigToken, configDir);
      ConfigSuffixUnchanged(configDir);
      ReplaceAllAtMatch(ConfigToken, "/.config", configDir);
    }
    // Third pass: no `$` is left.
    NoMatchWithoutFirstChar(s2, HomeToken);
    ReplaceAllWithoutMatch(s2, HomeToken, home);
  }

  /** The `/.config` suffix holds no placeholder. */
  lemma ConfigSuffixUnchanged(configDir: Path)
    ensures ReplaceAll("/.config", ConfigToken, configDir) == "/.config"
  {
    NoMatchWithoutFirstChar("/.config", ConfigToken);
    ReplaceAllWithoutMatch("/.config", ConfigToken, configDir);
  }
}
