/**
 * Placeholder substitution in configured paths, `replace_placeholders_in_path`
 * of `src/configuration/utilities.rs`: each (key, value) pair of the
 * placeholder map is applied in turn with `str::replace`. The map's
 * iteration order, which `HashMap` leaves unspecified, is the order of the
 * pair sequence.
 */
module PathPlaceholders {

  /** True when `pat` occurs in `s` starting at index `i`. */
  predicate OccursAt(s: string, pat: string, i: nat) {
    i + |pat| <= |s| && s[i..i + |pat|] == pat
  }

  /** True when `pat` occurs somewhere in `s`. */
  predicate Occurs(s: string, pat: string) {
    exists i: nat | i + |pat| <= |s| :: OccursAt(s, pat, i)
  }

  /**
   * `str::replace(pat, rep)`: scanning left to right, every occurrence of
   * a non-empty `pat` is replaced by `rep` and the scan resumes after it,
   * so occurrences do not overlap. An empty `pat` matches at every
   * character boundary, so `rep` is inserted before each character and at
   * the end.
   */
  function ReplaceAll(s: string, pat: string, rep: string): (r: string)
    decreases |s|
  {
    if pat == [] then
      rep + (if s == [] then [] else [s[0]] + ReplaceAll(s[1..], pat, rep))
    else if |s| < |pat| then s
    else if s[..|pat|] == pat then rep + ReplaceAll(s[|pat|..], pat, rep)
    else [s[0]] + ReplaceAll(s[1..], pat, rep)
  }

  /** The number of matches `str::replace` finds: non-overlapping, leftmost first. */
  function MatchCount(s: string, pat: string): nat
    decreases |s|
  {
    if pat == [] then |s| + 1
    else if |s| < |pat| then 0
    else if s[..|pat|] == pat then 1 + MatchCount(s[|pat|..], pat)
    else MatchCount(s[1..], pat)
  }

  /** A key that does not occur leaves the string unchanged. */
  lemma {:induction false} ReplaceAbsent(s: string, pat: string, rep: string)
    requires pat != [] && !Occurs(s, pat)
    ensures ReplaceAll(s, pat, rep) == s
    ensures MatchCount(s, pat) == 0
    decreases |s|
  {
    if |s| >= |pat| {
      assert !OccursAt(s, pat, 0);
      assert !Occurs(s[1..], pat) by {
        forall i: nat | i + |pat| <= |s[1..]|
          ensures !OccursAt(s[1..], pat, i)
        {
          assert s[1..][i..i + |pat|] == s[i + 1..i + 1 + |pat|];
          assert !OccursAt(s, pat, i + 1);
        }
      }
      ReplaceAbsent(s[1..], pat, rep);
    }
  }

  /**
   * The first match: when `pat` does not start anywhere before index `|t|`
   * of `t + pat + u`, the text `t` before it is kept, that occurrence becomes
   * `rep`, and the scan goes on in `u`.
   */
  lemma {:induction false} ReplaceFirstOccurrence(t: string, pat: string, u: string, rep: string)
    requires pat != []
    requires forall i: nat | i < |t| :: !OccursAt(t + pat + u, pat, i)
    ensures ReplaceAll(t + pat + u, pat, rep) == t + rep + ReplaceAll(u, pat, rep)
    ensures MatchCount(t + pat + u, pat) == 1 + MatchCount(u, pat)
    decreases |t|
  {
    var s := t + pat + u;
    if t == [] {
      assert s == pat + u;
      assert s[..|pat|] == pat && s[|pat|..] == u;
    } else {
      assert !OccursAt(s, pat, 0);
      assert s[1..] == t[1..] + pat + u;
      forall i: nat | i < |t[1..]|
        ensures !OccursAt(t[1..] + pat + u, pat, i)
      {
        assert !OccursAt(s, pat, i + 1);
        assert s[i + 1..i + 1 + |pat|] == s[1..][i..i + |pat|];
      }
      ReplaceFirstOccurrence(t[1..], pat, u, rep);
      assert t + rep + ReplaceAll(u, pat, rep) == [t[0]] + (t[1..] + rep + ReplaceAll(u, pat, rep));
    }
  }

  /** Replacing a key by itself changes nothing. */
  lemma {:induction false} ReplaceBySelf(s: string, pat: string)
    ensures pat != [] ==> ReplaceAll(s, pat, pat) == s
    decreases |s|
  {
    if pat != [] && |s| >= |pat| {
      if s[..|pat|] == pat {
        ReplaceBySelf(s[|pat|..], pat);
        assert s == s[..|pat|] + s[|pat|..];
      } else {
        ReplaceBySelf(s[1..], pat);
        assert s == [s[0]] + s[1..];
      }
    }
  }

  lemma MulSucc(k: nat, d: int)
    ensures (k + 1) * d == d + k * d
  {
  }

  /** Each of the `k` matches changes the length by `|rep| - |pat|`. */
  lemma {:induction false} ReplaceLength(s: string, pat: string, rep: string)
    ensures |ReplaceAll(s, pat, rep)| == |s| + MatchCount(s, pat) * (|rep| - |pat|)
    decreases |s|
  {
    var d := |rep| - |pat|;
    if pat == [] {
      if s != [] {
        ReplaceLength(s[1..], pat, rep);
        MulSucc(|s|, d);
        MulSucc(|s| - 1, d);
        assert |ReplaceAll(s, pat, rep)| == |rep| + 1 + |ReplaceAll(s[1..], pat, rep)|;
      }
    } else if |s| >= |pat| {
      if s[..|pat|] == pat {
        var k := MatchCount(s[|pat|..], pat);
        ReplaceLength(s[|pat|..], pat, rep);
        MulSucc(k, d);
        assert |ReplaceAll(s, pat, rep)| == |rep| + |ReplaceAll(s[|pat|..], pat, rep)|;
      } else {
        ReplaceLength(s[1..], pat, rep);
      }
    }
  }

  /**
   * The placeholders applied one after another, in the sequence's order,
   * each to the result of the previous ones.
   */
  function ApplyPlaceholders(s: string, placeholders: seq<(string, string)>): string
    decreases |placeholders|
  {
    if placeholders == [] then s
    else
      var (key, value) := placeholders[|placeholders| - 1];
      ReplaceAll(ApplyPlaceholders(s, placeholders[..|placeholders| - 1]), key, value)
  }

  /** The application is a left fold: the first pair is applied first, to the original string. */
  lemma {:induction false} ApplyPlaceholdersFirst(s: string, key: string, value: string, rest: seq<(string, string)>)
    ensures ApplyPlaceholders(s, [(key, value)] + rest) == ApplyPlaceholders(ReplaceAll(s, key, value), rest)
    decreases |rest|
  {
    var all := [(key, value)] + rest;
    if rest == [] {
      assert all[..0] == [];
    } else {
      assert all[..|all| - 1] == [(key, value)] + rest[..|rest| - 1];
      ApplyPlaceholdersFirst(s, key, value, rest[..|rest| - 1]);
    }
  }

  /** Pairs whose key does not occur in the current string leave it unchanged. */
  lemma {:induction false} ApplyAbsentKeys(s: string, placeholders: seq<(string, string)>)
    requires forall i | 0 <= i < |placeholders| :: placeholders[i].0 != [] && !Occurs(s, placeholders[i].0)
    ensures ApplyPlaceholders(s, placeholders) == s
    decreases |placeholders|
  {
    if placeholders != [] {
      var n := |placeholders| - 1;
      ApplyAbsentKeys(s, placeholders[..n]);
      ReplaceAbsent(s, placeholders[n].0, placeholders[n].1);
    }
  }

  /** `replace_placeholders_in_path`; the returned `PathBuf` is modelled by its string. */
  method ReplacePlaceholdersInPath(originalPath: string, placeholders: seq<(string, string)>) returns (pathString: string)
    ensures pathString == ApplyPlaceholders(originalPath, placeholders)
    ensures placeholders == [] ==> pathString == originalPath
    ensures |placeholders| == 1 ==> pathString == ReplaceAll(originalPath, placeholders[0].0, placeholders[0].1)
  {
    pathString := originalPath;
    for i := 0 to |placeholders|
      invariant pathString == ApplyPlaceholders(originalPath, placeholders[..i])
    {
      var (key, value) := placeholders[i];
      assert placeholders[..i + 1][..i] == placeholders[..i];
      pathString := ReplaceAll(pathString, key, value);
    }
    assert placeholders[..|placeholders|] == placeholders;
    if |placeholders| == 1 {
      assert placeholders[..0] == [];
    }
  }

  /** The one placeholder the base-path configuration defines. */
  const BaseDataDirectoryKey: string := "{BASE_DATA_DIRECTORY}"

  /** `BasePathsConfiguration::placeholders_map`: the base data directory under its key. */
  function PlaceholdersMap(baseDataDirectory: string): (m: seq<(string, string)>)
  {
    [(BaseDataDirectoryKey, baseDataDirectory)]
  }

  /**
   * With the base-path map, every `{BASE_DATA_DIRECTORY}` is replaced by the
   * base directory; a path that starts with it and holds no other gets the
   * directory in its place, followed by the rest of the path unchanged.
   */
  lemma BaseDataDirectoryResolved(path: string, baseDataDirectory: string, rest: string)
    ensures ApplyPlaceholders(path, PlaceholdersMap(baseDataDirectory)) == ReplaceAll(path, BaseDataDirectoryKey, baseDataDirectory)
    ensures !Occurs(rest, BaseDataDirectoryKey) ==>
              ApplyPlaceholders(BaseDataDirectoryKey + rest, PlaceholdersMap(baseDataDirectory)) == baseDataDirectory + rest
  {
    assert PlaceholdersMap(baseDataDirectory)[..0] == [];
    if !Occurs(rest, BaseDataDirectoryKey) {
      assert [] + BaseDataDirectoryKey + rest == BaseDataDirectoryKey + rest;
      ReplaceFirstOccurrence([], BaseDataDirectoryKey, rest, baseDataDirectory);
      ReplaceAbsent(rest, BaseDataDirectoryKey, baseDataDirectory);
    }
  }
}
