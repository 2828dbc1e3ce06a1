/**
 * `getSubVolumes` (main.go:68-82) without the command it runs: the listing
 * text is parsed, and of the subvolume paths only those that start with
 * the snapshot prefix and match the snapshot pattern are kept, with the
 * prefix removed, in listing order. The pattern (a regular expression in
 * the program) is an arbitrary predicate on the whole path.
 */
module Snapshots {
  import opened Wrappers
  import opened GoStrings
  import opened Listing

  /** A volume the filter keeps: it starts with `prefix` and `matches` accepts it. */
  predicate Selected(volume: string, prefix: string, matches: string -> bool)
  {
    HasPrefix(volume, prefix) && matches(volume)
  }

  /** The snapshot names the filter loop produces from `volumes`. */
  function Filter(volumes: seq<string>, prefix: string, matches: string -> bool): (r: seq<string>)
    ensures |r| <= |volumes|
  {
    if volumes == [] then []
    else
      var last := volumes[|volumes| - 1];
      Filter(volumes[..|volumes| - 1], prefix, matches) +
        (if Selected(last, prefix, matches) then [TrimPrefix(last, prefix)] else [])
  }

  /** The filter works element by element: it distributes over concatenation. */
  lemma {:induction false} FilterAppend(a: seq<string>, b: seq<string>, prefix: string, matches: string -> bool)
    ensures Filter(a + b, prefix, matches) == Filter(a, prefix, matches) + Filter(b, prefix, matches)
    decreases |b|
  {
    if b == [] {
      assert a + b == a;
    } else {
      var n := |b| - 1;
      assert (a + b)[..|a + b| - 1] == a + b[..n];
      FilterAppend(a, b[..n], prefix, matches);
    }
  }

  /** A single volume yields its name without the prefix when selected, and nothing otherwise. */
  lemma FilterOne(v: string, prefix: string, matches: string -> bool)
    ensures Filter([v], prefix, matches) ==
            if Selected(v, prefix, matches) then [v[|prefix|..]] else []
  {
    assert [v][..0] == [];
  }

  /**
   * A name is in the result exactly when some selected volume of the input
   * is that name behind the prefix.
   */
  lemma {:induction false} FilterMembers(volumes: seq<string>, prefix: string, matches: string -> bool, name: string)
    ensures name in Filter(volumes, prefix, matches) <==>
            exists i :: 0 <= i < |volumes| && Selected(volumes[i], prefix, matches) && volumes[i] == prefix + name
  {
    if volumes != [] {
      var n := |volumes| - 1;
      var init := volumes[..n];
      FilterMembers(init, prefix, matches, name);
      var last := volumes[n];
      if Selected(last, prefix, matches) && last == prefix + name {
        assert last[|prefix|..] == name;
      }
      if Selected(last, prefix, matches) && TrimPrefix(last, prefix) == name {
        assert last == prefix + name;
      }
      if exists i :: 0 <= i < n && Selected(init[i], prefix, matches) && init[i] == prefix + name {
        var i :| 0 <= i < n && Selected(init[i], prefix, matches) && init[i] == prefix + name;
        assert volumes[i] == init[i];
      }
      if exists i :: 0 <= i < |volumes| && Selected(volumes[i], prefix, matches) && volumes[i] == prefix + name {
        var i :| 0 <= i < |volumes| && Selected(volumes[i], prefix, matches) && volumes[i] == prefix + name;
        if i < n {
          assert init[i] == volumes[i];
        }
      }
    }
  }

  /** The volumes `matches` accepts, unchanged and in order. */
  function Matching(volumes: seq<string>, matches: string -> bool): seq<string>
  {
    if volumes == [] then []
    else (if matches(volumes[0]) then [volumes[0]] else []) + Matching(volumes[1..], matches)
  }

  /** With an empty prefix the filter keeps the matching volumes unchanged. */
  lemma {:induction false} FilterNoPrefix(volumes: seq<string>, matches: string -> bool)
    ensures Filter(volumes, "", matches) == Matching(volumes, matches)
  {
    if volumes != [] {
      assert volumes == [volumes[0]] + volumes[1..];
      FilterAppend([volumes[0]], volumes[1..], "", matches);
      FilterOne(volumes[0], "", matches);
      FilterNoPrefix(volumes[1..], matches);
    }
  }

  /** With an empty prefix and a pattern that matches every volume, all volumes come back unchanged. */
  lemma {:induction false} FilterKeepsAll(volumes: seq<string>, matches: string -> bool)
    requires forall i :: 0 <= i < |volumes| ==> matches(volumes[i])
    ensures Filter(volumes, "", matches) == volumes
  {
    FilterNoPrefix(volumes, matches);
    MatchingAll(volumes, matches);
  }

  lemma {:induction false} MatchingAll(volumes: seq<string>, matches: string -> bool)
    requires forall i :: 0 <= i < |volumes| ==> matches(volumes[i])
    ensures Matching(volumes, matches) == volumes
  {
    if volumes != [] {
      MatchingAll(volumes[1..], matches);
    }
  }

  /** A listing of a snapshot and two other subvolumes, with an always-matching pattern. */
  lemma FilterExample(volumes: seq<string>)
    requires volumes == ["2019-01-10_03-00", "foo", "bar"]
    ensures Filter(volumes, "", _ => true) == ["2019-01-10_03-00", "foo", "bar"]
  {
    FilterKeepsAll(volumes, _ => true);
  }

  /**
   * Under the local prefix "snapshot/", a snapshot the pattern accepts loses
   * its prefix, and a volume outside the prefix is dropped whatever the
   * pattern says.
   */
  lemma FilterPrefixExample(volumes: seq<string>, matches: string -> bool)
    requires volumes == ["snapshot/2019-01-10_03-00", "foobar"] && matches(volumes[0])
    ensures Filter(volumes, "snapshot/", matches) == ["2019-01-10_03-00"]
  {
    assert volumes == [volumes[0]] + [volumes[1]];
    FilterAppend([volumes[0]], [volumes[1]], "snapshot/", matches);
    FilterOne(volumes[0], "snapshot/", matches);
    FilterOne(volumes[1], "snapshot/", matches);
    assert volumes[0][|"snapshot/"|..] == "2019-01-10_03-00";
  }

  /** The filter loop of `getSubVolumes` (main.go:74-79). */
  method FilterVolumes(volumes: seq<string>, prefix: string, matches: string -> bool) returns (res: seq<string>)
    ensures res == Filter(volumes, prefix, matches)
  {
    res := [];
    for i := 0 to |volumes|
      invariant res == Filter(volumes[..i], prefix, matches)
    {
      var volume := volumes[i];
      assert volumes[..i + 1][..i] == volumes[..i];
      if HasPrefix(volume, prefix) && matches(volume) {
        res := res + [TrimPrefix(volume, prefix)];
      }
    }
    assert volumes[..|volumes|] == volumes;
  }

  /**
   * `getSubVolumes` on the text the listing command printed: the selected
   * snapshot names, or the parse error unchanged.
   */
  method GetSubVolumes(listing: string, prefix: string, matches: string -> bool)
    returns (r: Result<seq<string>, ListingError>)
    ensures Parse(listing).Err? ==> r == Err(Parse(listing).error)
    ensures Parse(listing).Ok? ==> r == Ok(Filter(Parse(listing).value, prefix, matches))
  {
    var volumes := ParseSubVolumes(listing);
    if volumes.Err? {
      return Err(volumes.error);
    }
    var res := FilterVolumes(volumes.value, prefix, matches);
    return Ok(res);
  }
}
