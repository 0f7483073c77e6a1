/** The two scripts meet only in the bucket: the exporter uploads
    "nba_filtered_game_logs.csv", "nba_filtered_game_logs_1.csv", ... and the
    viewer lists the keys under "nba_filtered_game_logs_" and picks the one
    with the largest number. These lemmas connect the two conventions. */
module Handoff {
  import opened Wrappers
  import opened Text
  import opened Uploader
  import Exporter
  import Viewer

  /** The `n`-th suffixed key the uploader writes parses back, in the viewer,
      to `n`, provided the extension holds no underscore. */
  lemma CandidateSuffixRoundTrip(key: string, n: nat)
    requires n >= 1 && '_' !in SplitKey(key).1
    ensures Viewer.SuffixValue(Candidate(key, n)) == Some(n)
  {
    var (base, ext) := SplitKey(key);
    Viewer.SuffixTextOf(base, NatToString(n), ext);
    ParsePrinted(n);
  }

  /** The exported key splits into "nba_filtered_game_logs" and ".csv"; the
      unsuffixed key falls outside the viewer's prefix and every suffixed
      one inside it. */
  lemma ExportKeyAndPrefix(n: nat)
    ensures SplitKey(Exporter.ExportKey) == ("nba_filtered_game_logs", ".csv")
    ensures !(Viewer.ListPrefix <= Exporter.ExportKey)
    ensures n >= 1 ==> Viewer.ListPrefix <= Candidate(Exporter.ExportKey, n)
  {
    var key := Exporter.ExportKey;
    assert key[22] == '.' && '.' !in key[23..];
    assert LastIndexOf(key, '.') == Some(22);
    assert key[..22] == "nba_filtered_game_logs" && key[22..] == ".csv";
    assert key[22] != Viewer.ListPrefix[22];
    if n >= 1 {
      var c := Candidate(key, n);
      assert c == "nba_filtered_game_logs" + "_" + NatToString(n) + ".csv";
      assert c[..23] == Viewer.ListPrefix;
    }
  }

  /** `list_objects_v2(Prefix=prefix)`: the listing holds exactly the stored
      keys that start with `prefix`, in some order. */
  ghost predicate ListingOf(listing: seq<string>, objects: set<string>, prefix: string) {
    forall k :: k in listing <==> k in objects && prefix <= k
  }

  /** The viewer never selects the unsuffixed first upload: it is not listed. */
  lemma UnsuffixedNeverSelected(listing: seq<string>, objects: set<string>)
    requires ListingOf(listing, objects, Viewer.ListPrefix)
    requires Viewer.SelectLatest(listing).Ok?
    ensures Viewer.SelectLatest(listing).value != Exporter.ExportKey
  {
    ExportKeyAndPrefix(0);
    Viewer.SelectedIsListed(listing, Viewer.SuffixValue);
    var selected := Viewer.SelectLatest(listing).value;
    assert Viewer.ListPrefix <= selected;
  }

  /** Suffixed candidates start with `base_`, the key itself does not. */
  lemma CandidatePrefix(key: string, m: nat)
    ensures var prefix := SplitKey(key).0 + "_";
      (m == 0 ==> !(prefix <= Candidate(key, m))) && (m >= 1 ==> prefix <= Candidate(key, m))
  {
    var (base, ext) := SplitKey(key);
    if m == 0 {
      if base + "_" <= key {
        assert key[|base|] == '_';
        assert ext[0] == key[|base|];
      }
    } else {
      assert Candidate(key, m) == base + "_" + (NatToString(m) + ext);
    }
  }

  /** A listed key of a bucket holding the first `n + 1` candidates of `key`
      is the `m`-th of them for some 1 <= m <= n, and its suffix parses to `m`. */
  lemma ListedUpload(key: string, k: string, n: nat) returns (m: nat)
    requires '_' !in SplitKey(key).1
    requires k in CandidateSet(key, n + 1) && SplitKey(key).0 + "_" <= k
    ensures 1 <= m <= n && k == Candidate(key, m)
    ensures Viewer.SuffixValue(k) == Some(m)
  {
    CandidateSetMembers(key, n + 1, k);
    m :| 0 <= m < n + 1 && Candidate(key, m) == k;
    CandidatePrefix(key, m);
    CandidateSuffixRoundTrip(key, m);
  }

  /** With the key and its suffixes 1 to `n` stored, a listing under `base_`
      selects suffix `n`, the latest upload. */
  lemma NewestCandidateSelected(key: string, listing: seq<string>, n: nat)
    requires n >= 1 && '_' !in SplitKey(key).1
    requires ListingOf(listing, CandidateSet(key, n + 1), SplitKey(key).0 + "_")
    ensures Viewer.SelectLatest(listing) == Ok(Candidate(key, n))
  {
    var c := Candidate(key, n);
    CandidatePrefix(key, n);
    CandidateSetSize(key, n + 1);
    assert c in listing;
    CandidateSuffixRoundTrip(key, n);
    forall j | 0 <= j < |listing|
      ensures Viewer.SuffixValue(listing[j]).Some? && Viewer.SuffixValue(listing[j]).value <= n
      ensures Viewer.SuffixValue(listing[j]) == Some(n) ==> listing[j] == c
    {
      var m := ListedUpload(key, listing[j], n);
    }
    Viewer.SelectsUniqueMax(listing, Viewer.SuffixValue, c, n);
  }

  /** After the exporter's uploads "nba_filtered_game_logs.csv" and suffixes
      1 to `n`, the viewer selects the upload with suffix `n`, the latest. */
  lemma NewestUploadSelected(listing: seq<string>, n: nat)
    requires n >= 1
    requires ListingOf(listing, CandidateSet(Exporter.ExportKey, n + 1), Viewer.ListPrefix)
    ensures Viewer.SelectLatest(listing) == Ok(Candidate(Exporter.ExportKey, n))
  {
    ExportKeyAndPrefix(n);
    NewestCandidateSelected(Exporter.ExportKey, listing, n);
  }
}
