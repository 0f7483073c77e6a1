/** The collision-avoiding upload of S3Upload/main.py: `file_exists` turns the
    outcome of a `head_object` call into "exists", "absent" or a propagated
    error, and `upload_file_with_increment` probes `key`, `base_1ext`,
    `base_2ext`, ... until a probe reports "absent", then uploads there.

    The bucket is a value: the keys it holds, and the keys whose `head_object`
    call fails with some code other than 404 (access denied, throttling, ...).
    An upload returns the bucket as it is afterwards. */
module Uploader {
  import opened Wrappers
  import opened Text

  /** An S3 error code other than "404": a `head_object` failure that
      `file_exists` re-raises. */
  type FaultCode = c: string | c != "404" witness "403"

  datatype Store = Store(objects: set<string>, faults: map<string, FaultCode>)

  /** What `head_object` reports for `key`: success, or a `ClientError`
      carrying the response's error code. */
  datatype HeadOutcome = Found | ClientError(code: string)

  function Head(store: Store, key: string): (o: HeadOutcome)
    ensures o == Found <==> key in store.objects && key !in store.faults
    ensures o == ClientError("404") <==> key !in store.objects && key !in store.faults
  {
    if key in store.faults then ClientError(store.faults[key])
    else if key in store.objects then Found
    else ClientError("404")
  }

  /** `file_exists`: true when the head call succeeds, false only for the
      code "404"; any other code is re-raised, here returned as `Err(code)`. */
  function FileExists(o: HeadOutcome): (r: Result<bool, string>)
    ensures r == Ok(true) <==> o.Found?
    ensures r == Ok(false) <==> o == ClientError("404")
    ensures r.Err? <==> o.ClientError? && o.code != "404"
    ensures r.Err? ==> r.error == o.code
  {
    match o
    case Found => Ok(true)
    case ClientError(code) => if code == "404" then Ok(false) else Err(code)
  }

  /** `s3_key.rsplit('.', 1)` with the dot put back on the extension; a key
      without a dot is all base and no extension. */
  function SplitKey(key: string): (parts: (string, string))
    ensures parts.0 + parts.1 == key
    ensures parts.1 == [] <==> '.' !in key
    ensures parts.1 != [] ==> parts.1[0] == '.' && '.' !in parts.1[1..]
  {
    match LastIndexOf(key, '.')
    case None => (key, [])
    case Some(i) => (key[..i], key[i..])
  }

  /** The `n`-th key the upload loop probes: the key itself first, then
      `f"{base}_{n}{ext}"` for n = 1, 2, ... */
  function Candidate(key: string, n: nat): string
  {
    if n == 0 then key
    else
      var (base, ext) := SplitKey(key);
      base + "_" + NatToString(n) + ext
  }

  /** A suffixed candidate: the base, an underscore, the numeral, the extension. */
  lemma CandidateShape(key: string, n: nat)
    requires n >= 1
    ensures var (base, ext) := SplitKey(key);
      |Candidate(key, n)| == |key| + 1 + |NatToString(n)| &&
      Candidate(key, n)[..|base|] == base &&
      Candidate(key, n)[|base|] == '_' &&
      Candidate(key, n)[|base| + 1..|base| + 1 + |NatToString(n)|] == NatToString(n) &&
      Candidate(key, n)[|base| + 1 + |NatToString(n)|..] == ext
  {
    var (base, ext) := SplitKey(key);
    var d := NatToString(n);
    assert Candidate(key, n) == base + "_" + d + ext;
  }

  /** The probed keys are pairwise distinct, so each probe asks about a new key. */
  lemma CandidatesDistinct(key: string, m: nat, n: nat)
    requires m != n
    ensures Candidate(key, m) != Candidate(key, n)
  {
    if m >= 1 && n >= 1 && Candidate(key, m) == Candidate(key, n) {
      CandidateShape(key, m);
      CandidateShape(key, n);
      var base := SplitKey(key).0;
      var c := Candidate(key, m);
      assert NatToString(m) == c[|base| + 1..|base| + 1 + |NatToString(m)|];
      PrintedInjective(m, n);
    } else if m >= 1 && n == 0 {
      CandidateShape(key, m);
    } else if m == 0 && n >= 1 {
      CandidateShape(key, n);
    }
  }

  /** The first `n` candidates, as a set. */
  function CandidateSet(key: string, n: nat): set<string>
  {
    if n == 0 then {} else CandidateSet(key, n - 1) + {Candidate(key, n - 1)}
  }

  lemma {:induction false} CandidateSetSize(key: string, n: nat)
    ensures |CandidateSet(key, n)| == n
    ensures forall m :: 0 <= m < n ==> Candidate(key, m) in CandidateSet(key, n)
  {
    if n > 0 {
      CandidateSetSize(key, n - 1);
      if Candidate(key, n - 1) in CandidateSet(key, n - 1) {
        CandidateSetMembers(key, n - 1, Candidate(key, n - 1));
        var m :| 0 <= m < n - 1 && Candidate(key, m) == Candidate(key, n - 1);
        CandidatesDistinct(key, m, n - 1);
      }
    }
  }

  lemma {:induction false} CandidateSetMembers(key: string, n: nat, k: string)
    requires k in CandidateSet(key, n)
    ensures exists m :: 0 <= m < n && Candidate(key, m) == k
  {
    if k != Candidate(key, n - 1) {
      CandidateSetMembers(key, n - 1, k);
    }
  }

  /** Every one of the first `n` probes reported "exists". */
  predicate AllFoundBelow(store: Store, key: string, n: nat) {
    forall m :: 0 <= m < n ==> Head(store, Candidate(key, m)) == Found
  }

  /** Bound on the probe count: `n` distinct keys found means at least `n` objects. */
  lemma FoundBelowBound(store: Store, key: string, n: nat)
    requires AllFoundBelow(store, key, n)
    ensures n <= |store.objects|
  {
    CandidateSetSize(key, n);
    forall k | k in CandidateSet(key, n) ensures k in store.objects {
      CandidateSetMembers(key, n, k);
    }
    SubsetSize(CandidateSet(key, n), store.objects);
  }

  lemma {:induction false} SubsetSize(a: set<string>, b: set<string>)
    requires a <= b
    ensures |a| <= |b|
  {
    if a != {} {
      var x :| x in a;
      SubsetSize(a - {x}, b - {x});
    }
  }

  /** Where the probe loop stops: at an absent candidate, which becomes the
      upload key, or at a probe whose error `file_exists` re-raises. */
  datatype Probe = Free(slot: nat) | Failed(slot: nat, code: string)

  /** The probe sequence from the `n`-th candidate on, the specification of
      the `while file_exists(...)` loop. */
  function ProbeFrom(store: Store, key: string, n: nat): (p: Probe)
    requires AllFoundBelow(store, key, n)
    ensures n <= p.slot <= |store.objects|
    ensures AllFoundBelow(store, key, p.slot)
    ensures p.Free? ==> Candidate(key, p.slot) !in store.objects && Candidate(key, p.slot) !in store.faults
    ensures p.Failed? ==> Candidate(key, p.slot) in store.faults &&
                          p.code == store.faults[Candidate(key, p.slot)]
    decreases |store.objects| - n
  {
    FoundBelowBound(store, key, n);
    match FileExists(Head(store, Candidate(key, n)))
    case Ok(true) =>
      FoundBelowBound(store, key, n + 1);
      ProbeFrom(store, key, n + 1)
    case Ok(false) => Free(n)
    case Err(code) => Failed(n, code)
  }

  /** Where the probe loop for `key` stops. */
  function FirstFree(store: Store, key: string): Probe
  {
    ProbeFrom(store, key, 0)
  }

  /** `upload_file_with_increment`: the key that received the upload and the
      bucket afterwards, or the error code of the probe that raised, in
      which case nothing was uploaded. */
  method UploadWithIncrement(store: Store, key: string) returns (r: Result<string, string>, after: Store)
    ensures match FirstFree(store, key)
      case Free(n) =>
        r == Ok(Candidate(key, n)) && after == store.(objects := store.objects + {Candidate(key, n)})
      case Failed(_, code) => r == Err(code) && after == store
  {
    var (base, ext) := SplitKey(key);
    var newKey := key;
    var counter: nat := 1;
    var present := FileExists(Head(store, newKey));
    while present == Ok(true)
      invariant counter >= 1
      invariant newKey == Candidate(key, counter - 1)
      invariant present == FileExists(Head(store, newKey))
      invariant AllFoundBelow(store, key, counter - 1)
      invariant ProbeFrom(store, key, counter - 1) == FirstFree(store, key)
      decreases |store.objects| + 1 - counter
    {
      FoundBelowBound(store, key, counter);
      newKey := base + "_" + NatToString(counter) + ext;
      counter := counter + 1;
      present := FileExists(Head(store, newKey));
    }
    if present.Err? {
      return Err(present.error), store;
    }
    r := Ok(newKey);
    after := store.(objects := store.objects + {newKey});
  }

  /** A key that is neither stored nor failing is used verbatim. */
  lemma VerbatimWhenAbsent(store: Store, key: string)
    requires key !in store.objects && key !in store.faults
    ensures FirstFree(store, key) == Free(0) && Candidate(key, 0) == key
  {
  }

  /** The upload never lands on an existing object, and afterwards the key and
      every suffix up to the one used are taken: no suffix is skipped. */
  lemma NoOverwriteNoGap(store: Store, key: string, n: nat)
    requires FirstFree(store, key) == Free(n)
    ensures Candidate(key, n) !in store.objects
    ensures var after := store.objects + {Candidate(key, n)};
      forall m :: 0 <= m <= n ==> Candidate(key, m) in after
  {
    assert AllFoundBelow(store, key, n);
  }

  /** With the key and its first `n - 1` suffixes taken and the `n`-th free,
      the upload goes to exactly the `n`-th candidate. */
  lemma FirstGapIsUsed(store: Store, key: string, n: nat)
    requires AllFoundBelow(store, key, n)
    requires Candidate(key, n) !in store.objects && Candidate(key, n) !in store.faults
    ensures FirstFree(store, key) == Free(n)
  {
    ProbeReachesGap(store, key, n, 0);
  }

  lemma {:induction false} ProbeReachesGap(store: Store, key: string, n: nat, j: nat)
    requires j <= n
    requires AllFoundBelow(store, key, n)
    requires Candidate(key, n) !in store.objects && Candidate(key, n) !in store.faults
    ensures ProbeFrom(store, key, j) == Free(n)
    decreases n - j
  {
    if j < n {
      ProbeReachesGap(store, key, n, j + 1);
    }
  }

  /** Successive uploads of one key fill `key`, `base_1ext`, `base_2ext`, ...
      in turn: with exactly the first `n` candidates stored, the next upload
      takes the `n`-th, and afterwards the first `n + 1` are stored. */
  lemma SuccessiveUploads(key: string, n: nat)
    ensures FirstFree(Store(CandidateSet(key, n), map[]), key) == Free(n)
    ensures CandidateSet(key, n) + {Candidate(key, n)} == CandidateSet(key, n + 1)
  {
    var store := Store(CandidateSet(key, n), map[]);
    CandidateSetSize(key, n);
    if Candidate(key, n) in CandidateSet(key, n) {
      CandidateSetMembers(key, n, Candidate(key, n));
      var m :| 0 <= m < n && Candidate(key, m) == Candidate(key, n);
      CandidatesDistinct(key, m, n);
    }
    FirstGapIsUsed(store, key, n);
  }

  /** A key without a dot gets the counter appended, never an extension. */
  lemma NoDotNoExtension(key: string, n: nat)
    requires '.' !in key && n >= 1
    ensures Candidate(key, n) == key + "_" + NatToString(n)
  {
  }

  /** Uploading "data.csv" to a bucket holding "data.csv" and "data_1.csv"
      stores "data_2.csv". */
  lemma SecondSuffixExample()
    ensures var store := Store({"data.csv", "data_1.csv"}, map[]);
      FirstFree(store, "data.csv") == Free(2) && Candidate("data.csv", 2) == "data_2.csv"
  {
    var store := Store({"data.csv", "data_1.csv"}, map[]);
    var key := "data.csv";
    assert LastIndexOf(key, '.') == Some(4);
    assert key[..4] == "data" && key[4..] == ".csv";
    assert SplitKey(key) == ("data", ".csv");
    assert NatToString(1) == "1" && NatToString(2) == "2";
    assert Candidate(key, 1) == "data_1.csv";
    assert Candidate(key, 2) == "data_2.csv";
    FirstGapIsUsed(store, key, 2);
  }
}
