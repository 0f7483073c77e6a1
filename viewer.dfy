/** `get_latest_s3_file` of app.py: list the keys under the prefix
    "nba_filtered_game_logs_", fail when there are none, read each key's
    numeric suffix (the text after the last `_`, up to the first `.` of that
    piece) and take the first key of the listing sorted by that number,
    descending. Python's sort is stable under `reverse=True`, so among keys
    with the largest suffix the earliest listed wins. */
module Viewer {
  import opened Wrappers
  import opened Text

  /** The prefix the viewer lists the bucket under. */
  const ListPrefix: string := "nba_filtered_game_logs_"

  datatype Failure =
    | NoMatchingFiles            // the response has no "Contents": exit(1)
    | MalformedSuffix(key: string)  // `int(...)` raises ValueError on this key

  /** `key.split('_')[-1].split('.')[0]` */
  function SuffixText(key: string): (t: string)
    ensures '_' !in t && '.' !in t
  {
    var piece := match LastIndexOf(key, '_')
      case None => key
      case Some(i) => key[i + 1..];
    match FirstIndexOf(piece, '.')
    case None => piece
    case Some(j) => piece[..j]
  }

  /** The sort key: the suffix read as a number, `None` where `int` raises. */
  function SuffixValue(key: string): Option<nat>
  {
    ParseNat(SuffixText(key))
  }

  /** A key with the numeral `t` between its last `_` and the extension has
      suffix text `t`. */
  lemma SuffixTextOf(prefix: string, t: string, ext: string)
    requires '_' !in t && '.' !in t && '_' !in ext
    requires ext == [] || ext[0] == '.'
    ensures SuffixText(prefix + "_" + t + ext) == t
  {
    var key := prefix + "_" + t + ext;
    var i := |prefix|;
    assert key[i] == '_';
    assert key[i + 1..] == t + ext;
    assert '_' !in key[i + 1..] by {
      forall c | c in t + ext ensures c != '_' {
      }
    }
    assert LastIndexOf(key, '_') == Some(i);
    var piece := t + ext;
    if ext == [] {
      assert piece == t;
    } else {
      assert piece[|t|] == '.' && piece[..|t|] == t;
      assert FirstIndexOf(piece, '.') == Some(|t|);
    }
  }

  /** A listed key with its parsed sort key. */
  datatype Entry = Entry(key: string, suffix: nat)

  /** Every listed key has a sort key. */
  predicate AllKeyed(listing: seq<string>, sortKey: string -> Option<nat>) {
    forall j :: 0 <= j < |listing| ==> sortKey(listing[j]).Some?
  }

  /** The decorated list that `sorted(files, key=sortKey)` sorts; the first
      key whose sort key fails ends the computation, as its `ValueError` would. */
  function Keyed(listing: seq<string>, sortKey: string -> Option<nat>): (r: Result<seq<Entry>, Failure>)
    ensures r.Ok? <==> AllKeyed(listing, sortKey)
    ensures r.Ok? ==> |r.value| == |listing|
    ensures r.Err? ==> r.error.MalformedSuffix?
    ensures r.Ok? ==> forall j :: 0 <= j < |listing| ==>
      r.value[j] == Entry(listing[j], sortKey(listing[j]).value)
  {
    if listing == [] then Ok([])
    else
      match sortKey(listing[0])
      case None => Err(MalformedSuffix(listing[0]))
      case Some(v) =>
        match Keyed(listing[1..], sortKey)
        case Err(f) => Err(f)
        case Ok(rest) => Ok([Entry(listing[0], v)] + rest)
  }

  /** The failure names the first key whose sort key fails. */
  lemma {:induction false} KeyedFailsAtFirst(listing: seq<string>, sortKey: string -> Option<nat>, i: nat)
    requires i < |listing| && sortKey(listing[i]).None?
    requires forall j :: 0 <= j < i ==> sortKey(listing[j]).Some?
    ensures Keyed(listing, sortKey) == Err(MalformedSuffix(listing[i]))
  {
    if i > 0 {
      KeyedFailsAtFirst(listing[1..], sortKey, i - 1);
    }
  }

  /** Suffixes never increase along the list. */
  predicate Descending(entries: seq<Entry>) {
    forall i, j :: 0 <= i < j < |entries| ==> entries[i].suffix >= entries[j].suffix
  }

  /** Insert `e` into a list sorted by descending suffix, before every entry
      whose suffix it equals or exceeds: the entries already there come
      later in the listing, so equal suffixes keep their listing order. */
  function Insert(e: Entry, sorted: seq<Entry>): (r: seq<Entry>)
    ensures |r| == |sorted| + 1
    ensures r[0] == if sorted == [] || e.suffix >= sorted[0].suffix then e else sorted[0]
  {
    if sorted == [] || e.suffix >= sorted[0].suffix then [e] + sorted
    else [sorted[0]] + Insert(e, sorted[1..])
  }

  /** `sorted(entries, key=suffix, reverse=True)`: a stable descending sort. */
  function SortDescending(entries: seq<Entry>): (r: seq<Entry>)
    ensures |r| == |entries|
  {
    if entries == [] then [] else Insert(entries[0], SortDescending(entries[1..]))
  }

  /** `sorted(listing, key=sortKey, reverse=True)[0]`, or the failure. */
  function LatestBy(listing: seq<string>, sortKey: string -> Option<nat>): (r: Result<string, Failure>)
    ensures r == Err(NoMatchingFiles) <==> listing == []
  {
    if listing == [] then Err(NoMatchingFiles)
    else
      match Keyed(listing, sortKey)
      case Err(f) => Err(f)
      case Ok(entries) => Ok(SortDescending(entries)[0].key)
  }

  /** Inserting rearranges `[e] + sorted`. */
  lemma {:induction false} InsertPermutes(e: Entry, sorted: seq<Entry>)
    ensures multiset(Insert(e, sorted)) == multiset([e] + sorted)
  {
    if sorted != [] && e.suffix < sorted[0].suffix {
      InsertPermutes(e, sorted[1..]);
      assert sorted == [sorted[0]] + sorted[1..];
      assert multiset(Insert(e, sorted)) == multiset([sorted[0]]) + multiset([e] + sorted[1..]);
    }
  }

  /** In a descending list, `e` lands after exactly the entries with a larger
      suffix, so it precedes the equal ones, which come later in the listing. */
  lemma {:induction false} InsertPlacement(e: Entry, sorted: seq<Entry>) returns (k: nat)
    requires Descending(sorted)
    ensures k <= |sorted| && Insert(e, sorted) == sorted[..k] + [e] + sorted[k..]
    ensures forall j :: 0 <= j < k ==> sorted[j].suffix > e.suffix
    ensures forall j :: k <= j < |sorted| ==> sorted[j].suffix <= e.suffix
  {
    if sorted == [] || e.suffix >= sorted[0].suffix {
      k := 0;
      assert Insert(e, sorted) == sorted[..0] + [e] + sorted[0..];
    } else {
      var tail := sorted[1..];
      var k' := InsertPlacement(e, tail);
      k := k' + 1;
      assert sorted[..k] == [sorted[0]] + tail[..k'] && sorted[k..] == tail[k'..];
      forall j | 0 <= j < k ensures sorted[j].suffix > e.suffix {
        if j > 0 { assert sorted[j] == tail[j - 1]; }
      }
      forall j | k <= j < |sorted| ensures sorted[j].suffix <= e.suffix {
        assert sorted[j] == tail[j - 1];
      }
    }
  }

  /** Inserting keeps a descending list descending. */
  lemma InsertKeepsDescending(e: Entry, sorted: seq<Entry>)
    requires Descending(sorted)
    ensures Descending(Insert(e, sorted))
  {
    var k := InsertPlacement(e, sorted);
    DescendingInsertion(sorted, e, k);
  }

  /** Inserting at a position whose left part is larger and whose right part
      is no larger keeps a descending list descending. */
  lemma DescendingInsertion(sorted: seq<Entry>, e: Entry, k: nat)
    requires k <= |sorted| && Descending(sorted)
    requires forall j :: 0 <= j < k ==> sorted[j].suffix > e.suffix
    requires forall j :: k <= j < |sorted| ==> sorted[j].suffix <= e.suffix
    ensures Descending(sorted[..k] + [e] + sorted[k..])
  {
    var r := sorted[..k] + [e] + sorted[k..];
    assert forall i :: 0 <= i < |r| ==> r[i] == if i < k then sorted[i] else if i == k then e else sorted[i - 1];
  }

  /** The sort rearranges its input into descending order. */
  lemma {:induction false} SortDescendingSpec(entries: seq<Entry>)
    ensures multiset(SortDescending(entries)) == multiset(entries)
    ensures Descending(SortDescending(entries))
  {
    if entries != [] {
      SortDescendingSpec(entries[1..]);
      InsertPermutes(entries[0], SortDescending(entries[1..]));
      InsertKeepsDescending(entries[0], SortDescending(entries[1..]));
      assert entries == [entries[0]] + entries[1..];
    }
  }

  /** `get_latest_s3_file` on a listing; an empty listing stands for a
      response without "Contents". */
  function SelectLatest(listing: seq<string>): Result<string, Failure>
  {
    LatestBy(listing, SuffixValue)
  }

  /** Entry `i` has the largest suffix and every earlier entry a smaller one. */
  predicate IsFirstMax(entries: seq<Entry>, i: nat) {
    i < |entries| &&
    (forall j :: 0 <= j < |entries| ==> entries[j].suffix <= entries[i].suffix) &&
    (forall j :: 0 <= j < i ==> entries[j].suffix < entries[i].suffix)
  }

  /** At most one entry is the first maximum. */
  lemma FirstMaxUnique(entries: seq<Entry>, i: nat, k: nat)
    requires IsFirstMax(entries, i) && IsFirstMax(entries, k)
    ensures i == k
  {
    var si, sk := entries[i].suffix, entries[k].suffix;
    assert i < k ==> si < sk;
    assert k < i ==> sk < si;
  }

  /** The head of the stable descending sort is the first maximum. */
  lemma {:induction false} SortedHeadIsFirstMax(entries: seq<Entry>)
    requires entries != []
    ensures exists i: nat :: IsFirstMax(entries, i) && SortDescending(entries)[0] == entries[i]
  {
    var rest := entries[1..];
    if rest == [] {
      assert IsFirstMax(entries, 0);
    } else {
      SortedHeadIsFirstMax(rest);
      var k: nat :| IsFirstMax(rest, k) && SortDescending(rest)[0] == rest[k];
      assert forall j :: 1 <= j < |entries| ==> entries[j] == rest[j - 1];
      if entries[0].suffix >= rest[k].suffix {
        assert IsFirstMax(entries, 0);
      } else {
        assert IsFirstMax(entries, k + 1);
      }
    }
  }

  /** Key `i` of the listing has the largest sort key, and every key listed
      before it a smaller one. */
  predicate IsLatestAt(listing: seq<string>, sortKey: string -> Option<nat>, i: nat)
    requires AllKeyed(listing, sortKey)
  {
    i < |listing| &&
    (forall j :: 0 <= j < |listing| ==> sortKey(listing[j]).value <= sortKey(listing[i]).value) &&
    (forall j :: 0 <= j < i ==> sortKey(listing[j]).value < sortKey(listing[i]).value)
  }

  /** The selection on a well-formed listing is the earliest key of largest
      sort key: any key with that property is the one returned. */
  lemma SelectsFirstMax(listing: seq<string>, sortKey: string -> Option<nat>, i: nat)
    requires AllKeyed(listing, sortKey)
    requires IsLatestAt(listing, sortKey, i)
    ensures LatestBy(listing, sortKey) == Ok(listing[i])
  {
    var entries := Keyed(listing, sortKey).value;
    assert IsFirstMax(entries, i);
    SortedHeadIsFirstMax(entries);
    var k: nat :| IsFirstMax(entries, k) && SortDescending(entries)[0] == entries[k];
    FirstMaxUnique(entries, i, k);
  }

  /** A selection is a listed key whose sort key is at least that of every
      listed key, and no earlier key reaches it. */
  lemma SelectedIsLatest(listing: seq<string>, sortKey: string -> Option<nat>)
    requires LatestBy(listing, sortKey).Ok?
    ensures AllKeyed(listing, sortKey)
    ensures exists i: nat :: IsLatestAt(listing, sortKey, i) && listing[i] == LatestBy(listing, sortKey).value
  {
    var entries := Keyed(listing, sortKey).value;
    SortedHeadIsFirstMax(entries);
    var k: nat :| IsFirstMax(entries, k) && SortDescending(entries)[0] == entries[k];
    assert IsLatestAt(listing, sortKey, k);
  }

  /** A listed key whose sort key `n` bounds every other, and is the only
      listed key reaching `n`, is the one selected. */
  lemma SelectsUniqueMax(listing: seq<string>, sortKey: string -> Option<nat>, c: string, n: nat)
    requires c in listing && sortKey(c) == Some(n)
    requires forall j :: 0 <= j < |listing| ==> sortKey(listing[j]).Some? && sortKey(listing[j]).value <= n
    requires forall j :: 0 <= j < |listing| && sortKey(listing[j]) == Some(n) ==> listing[j] == c
    ensures LatestBy(listing, sortKey) == Ok(c)
  {
    var i := FirstIndex(listing, c);
    forall j | 0 <= j < i
      ensures sortKey(listing[j]).value < n
    {
      assert listing[j] in listing[..i];
    }
    assert IsLatestAt(listing, sortKey, i);
    SelectsFirstMax(listing, sortKey, i);
  }

  /** The position of the first occurrence of `x` in `s`. */
  lemma {:induction false} FirstIndex<T>(s: seq<T>, x: T) returns (i: nat)
    requires x in s
    ensures i < |s| && s[i] == x && x !in s[..i]
  {
    if s[0] == x {
      i := 0;
    } else {
      var k := FirstIndex(s[1..], x);
      i := k + 1;
      assert s[..i] == [s[0]] + s[1..][..k];
    }
  }

  /** What is selected is one of the listed keys. */
  lemma SelectedIsListed(listing: seq<string>, sortKey: string -> Option<nat>)
    requires LatestBy(listing, sortKey).Ok?
    ensures LatestBy(listing, sortKey).value in listing
  {
    SelectedIsLatest(listing, sortKey);
  }

  /** A listing with a key whose sort key fails is rejected, naming the first such key. */
  lemma MalformedFails(listing: seq<string>, sortKey: string -> Option<nat>, i: nat)
    requires i < |listing| && sortKey(listing[i]).None?
    requires forall j :: 0 <= j < i ==> sortKey(listing[j]).Some?
    ensures LatestBy(listing, sortKey) == Err(MalformedSuffix(listing[i]))
  {
    KeyedFailsAtFirst(listing, sortKey, i);
  }
}
