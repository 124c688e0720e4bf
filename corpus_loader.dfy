/** `get_date_scores`: the year-bucket artifacts of all neighbourhoods are
    gathered into one map keyed by a display name derived from each artifact's
    path. Scanning the directory and unpickling are left out: the artifacts
    arrive as a sequence of (path, year map) pairs in the order the scan
    yields them. */
module CorpusLoader {
  import opened Text

  /** The directory the year-bucket artifacts are written to and read from. */
  const ArtifactDir: string := "Date_Scores_Final/"
  const ArtifactExt: string := ".pkl"

  /** One unpickled artifact and the path it was read from. */
  datatype Artifact = Artifact(path: string, buckets: map<string, seq<real>>)

  /** The display name of an artifact: every `Date_Scores_Final/`, then every
      `2`, then every `.pkl` is removed, and surrounding whitespace stripped. */
  function NormalizeName(path: string): (name: string)
    ensures '2' !in name
    ensures name == [] || (!IsSpace(name[0]) && !IsSpace(name[|name| - 1]))
  {
    var noDir := RemoveAll(path, ArtifactDir);
    var noTwo := RemoveAll(noDir, "2");
    RemoveAllChar(noDir, '2');
    StripChars(RemoveAll(noTwo, ArtifactExt));
    Strip(RemoveAll(noTwo, ArtifactExt))
  }

  /** The three removals applied to the path `get_score` writes leave the
      neighbourhood name without its `2`s. */
  lemma RemovalsOnArtifactPath(nhood: string)
    requires '/' !in nhood && '.' !in nhood
    ensures RemoveAll(RemoveAll(RemoveAll(ArtifactDir + nhood + ArtifactExt, ArtifactDir), "2"), ArtifactExt)
            == RemoveAll(nhood, "2")
  {
    var rest := nhood + ArtifactExt;
    var kept := RemoveAll(nhood, "2");
    assert ArtifactDir + nhood + ArtifactExt == ArtifactDir + rest;
    assert RemoveAll(ArtifactDir + rest, ArtifactDir) == rest by {
      assert '/' in ArtifactDir && '/' !in rest;
      RemoveAllPrefix(ArtifactDir, rest, '/');
    }
    assert RemoveAll(rest, "2") == kept + ArtifactExt by {
      RemoveAllCharConcat(nhood, ArtifactExt, '2');
      RemoveAllAbsent(ArtifactExt, "2", '2');
    }
    assert RemoveAll(kept + ArtifactExt, ArtifactExt) == kept by {
      RemoveAllChar(nhood, '2');
      RemoveAllSuffix(kept, ArtifactExt);
    }
  }

  /** The display name read back from the path `get_score` writes a
      neighbourhood's year map to is that neighbourhood's name with every `2`
      removed and surrounding whitespace stripped, provided the name has no
      `/` or `.`. */
  lemma NormalizeArtifactPath(nhood: string)
    requires '/' !in nhood && '.' !in nhood
    ensures NormalizeName(ArtifactDir + nhood + ArtifactExt) == Strip(RemoveAll(nhood, "2"))
  {
    RemovalsOnArtifactPath(nhood);
  }

  /** A name followed by a space and a `2` reads back as the name alone: the
      removal of `2` leaves the space and `strip()` takes it away. */
  lemma NormalizeSpacedTwo(name: string)
    requires '/' !in name && '.' !in name && '2' !in name
    requires name != [] && !IsSpace(name[0]) && !IsSpace(name[|name| - 1])
    ensures NormalizeName(ArtifactDir + name + " 2" + ArtifactExt) == name
  {
    var padded := name + " ";
    assert name + " 2" == padded + "2";
    NormalizeArtifactPath(padded + "2");
    RemoveAllCharConcat(padded, "2", '2');
    RemoveAllAbsent(padded, "2", '2');
    assert RemoveAll("2", "2") == [] by {
      assert OccursAt("2", "2", 0);
    }
    assert RemoveAll(padded + "2", "2") == padded;
    assert padded[0] == name[0] && padded[..|padded| - 1] == name;
    StripTrimmed(name);
    assert Strip(padded) == name;
    assert ArtifactDir + name + " 2" + ArtifactExt == ArtifactDir + (padded + "2") + ArtifactExt;
  }

  lemma NormalizeMidtownTwo()
    ensures NormalizeName("Date_Scores_Final/Midtown 2.pkl") == "Midtown"
  {
    var name := "Midtown";
    assert IsSpace(name[|name| - 1]) == false;
    NormalizeSpacedTwo(name);
    assert ArtifactDir + name + " 2" + ArtifactExt == "Date_Scores_Final/Midtown 2.pkl";
  }

  /** A neighbourhood name without `2` (nor `/`, `.` or surrounding
      whitespace) survives the write-then-read of its artifact path. */
  lemma NormalizeNameRoundTrip(nhood: string)
    requires '/' !in nhood && '.' !in nhood && '2' !in nhood
    requires nhood == [] || (!IsSpace(nhood[0]) && !IsSpace(nhood[|nhood| - 1]))
    ensures NormalizeName(ArtifactDir + nhood + ArtifactExt) == nhood
  {
    RemoveAllAbsent(nhood, "2", '2');
    NormalizeArtifactPath(nhood);
    StripTrimmed(nhood);
  }

  /** The loop of `get_date_scores`: `date_scores[name] = nhood_dict` for
      each artifact in turn, so a later artifact with the same display name
      replaces an earlier one. */
  method GetDateScores(artifacts: seq<Artifact>) returns (dateScores: map<string, map<string, seq<real>>>)
    ensures dateScores.Keys == set i | 0 <= i < |artifacts| :: NormalizeName(artifacts[i].path)
    ensures forall i :: 0 <= i < |artifacts| && LastWithName(artifacts, i, |artifacts|) ==>
              dateScores[NormalizeName(artifacts[i].path)] == artifacts[i].buckets
  {
    dateScores := map[];
    for k := 0 to |artifacts|
      invariant dateScores.Keys == set i | 0 <= i < k :: NormalizeName(artifacts[i].path)
      invariant forall i :: 0 <= i < k && LastWithName(artifacts, i, k) ==>
                  dateScores[NormalizeName(artifacts[i].path)] == artifacts[i].buckets
    {
      var name := NormalizeName(artifacts[k].path);
      dateScores := dateScores[name := artifacts[k].buckets];
    }
  }

  /** No artifact after position `i` and before position `upto` has the same
      display name as artifact `i`. */
  predicate LastWithName(artifacts: seq<Artifact>, i: nat, upto: nat)
    requires i < upto <= |artifacts|
  {
    forall j :: i < j < upto ==> NormalizeName(artifacts[j].path) != NormalizeName(artifacts[i].path)
  }
}
