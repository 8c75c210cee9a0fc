/** The URL controller: building the public short URL, resolving a short code,
    and assigning a short code to a long URL by probing prime-length prefixes
    of its base-62 SHA-256 digest. */
module UrlController {
  import opened Base62
  import opened Primes
  import opened UrlModel

  /** Escalations allowed before giving up. */
  const MaxAttempts: nat := 10

  /** The default when neither environment variable is set. */
  const DefaultBase: string := "http://localhost:5000"

  // ---------------------------------------------------------------------------
  // buildShortUrl

  /** The environment variables `BACKEND_URL` and `FRONTEND_URL`; an unset
      variable is the empty string, which JavaScript's `||` skips just the same. */
  datatype Env = Env(backendUrl: string, frontendUrl: string)

  /** The base address: the first of BACKEND_URL, FRONTEND_URL that is set,
      else the default. */
  function ShortUrlBase(env: Env): (base: string)
    ensures base != ""
    ensures env.backendUrl != "" ==> base == env.backendUrl
    ensures env.backendUrl == "" && env.frontendUrl != "" ==> base == env.frontendUrl
    ensures env.backendUrl == "" && env.frontendUrl == "" ==> base == DefaultBase
  {
    if env.backendUrl != "" then env.backendUrl
    else if env.frontendUrl != "" then env.frontendUrl
    else DefaultBase
  }

  predicate EndsWithSlash(s: string) {
    |s| > 0 && s[|s| - 1] == '/'
  }

  /** `s.replace(/\/$/, "")`: remove one trailing slash, if there is one. */
  function StripTrailingSlash(s: string): (r: string)
    ensures r <= s && |s| - 1 <= |r|
    ensures |r| < |s| <==> EndsWithSlash(s)
  {
    if EndsWithSlash(s) then s[..|s| - 1] else s
  }

  /** The clickable short URL: the base without one trailing slash, then
      `/r/` and the short code. */
  function BuildShortUrl(env: Env, shortCode: string): (url: string)
    ensures var base, k := ShortUrlBase(env), |url| - |shortCode| - 3;
            0 <= k && url[..k] <= base &&
            |base| - k == (if EndsWithSlash(base) then 1 else 0) &&
            url[k..] == "/r/" + shortCode
  {
    StripTrailingSlash(ShortUrlBase(env)) + "/r/" + shortCode
  }

  /** The last path segment of a URL: what follows its last slash. */
  function LastSegment(url: string): (seg: string)
    ensures |seg| <= |url| && url[|url| - |seg|..] == seg && '/' !in seg
  {
    if url == [] || url[|url| - 1] == '/' then []
    else LastSegment(url[..|url| - 1]) + [url[|url| - 1]]
  }

  lemma {:induction false} LastSegmentAfterSlash(prefix: string, code: string)
    requires '/' !in code
    ensures LastSegment(prefix + "/" + code) == code
    decreases |code|
  {
    if code == [] {
      assert prefix + "/" + code == prefix + "/";
    } else {
      var init, last := code[..|code| - 1], code[|code| - 1];
      assert code == init + [last];
      var shorter := prefix + "/" + init;
      assert prefix + "/" + code == shorter + [last];
      assert (shorter + [last])[..|shorter|] == shorter;
      LastSegmentAfterSlash(prefix, init);
    }
  }

  /** The route `/r/:shortCode` recovers a slash-free code from the last
      segment of its short URL. */
  lemma ShortUrlShape(env: Env, shortCode: string)
    requires '/' !in shortCode
    ensures LastSegment(BuildShortUrl(env, shortCode)) == shortCode
  {
    var stripped := StripTrailingSlash(ShortUrlBase(env));
    assert BuildShortUrl(env, shortCode) == (stripped + "/r") + "/" + shortCode;
    LastSegmentAfterSlash(stripped + "/r", shortCode);
  }

  /** Base-62 digits never contain a slash. */
  lemma DigitsHaveNoSlash(s: string)
    requires AllDigits(s)
    ensures '/' !in s
  {
    forall i | 0 <= i < |s|
      ensures s[i] != '/'
    {
      assert IsDigit(s[i]);
    }
  }

  /** A prefix of a base-62 digest is one path segment, so the route
      `/r/:shortCode` recovers it from the short URL. */
  lemma DigestPrefixSegment(env: Env, v: nat, code: string)
    requires code <= ToBase62(v)
    ensures LastSegment(BuildShortUrl(env, code)) == code
  {
    var digest := ToBase62(v);
    ToBase62Spec(v);
    assert AllDigits(code) by {
      forall i | 0 <= i < |code|
        ensures IsDigit(code[i])
      {
        assert code[i] == digest[i];
      }
    }
    DigitsHaveNoSlash(code);
    ShortUrlShape(env, code);
  }

  // ---------------------------------------------------------------------------
  // redirectUrl

  /** A redirect to the long URL, or 404. */
  datatype RedirectResponse = Redirect(location: string) | NotFound

  /** `redirectUrl`: look the short code up; redirect to its long URL or report
      that it is not found. */
  function RedirectUrl(db: UrlCollection, shortCode: string): (r: RedirectResponse)
    reads db
    ensures r == NotFound <==> shortCode !in db.records
    ensures r.Redirect? ==> db.records[shortCode] == r.location
  {
    match db.FindByShortCode(shortCode)
    case None => NotFound
    case Some(longUrl) => Redirect(longUrl)
  }

  // ---------------------------------------------------------------------------
  // Candidate short codes

  /** `s.slice(0, n)` for `n >= 0`: the first `n` characters, or all of `s`
      when it is shorter. */
  function Prefix(s: string, n: nat): (p: string)
    ensures p <= s && |p| == (if n < |s| then n else |s|)
  {
    s[..if n < |s| then n else |s|]
  }

  /** The length tried at attempt `i`: `start` first, then each time the next
      prime above the previous length. */
  ghost function ProbeLength(start: nat, i: nat): (n: nat)
    ensures n >= start
  {
    if i == 0 then start
    else
      var prev := ProbeLength(start, i - 1);
      NextPrimeOfSpec(prev + 1);
      NextPrimeOf(prev + 1)
  }

  /** Each escalation moves to the next prime: longer, and no prime skipped. */
  lemma ProbeLengthStep(start: nat, i: nat)
    ensures ProbeLength(start, i) < ProbeLength(start, i + 1)
    ensures Prime(ProbeLength(start, i + 1))
    ensures forall q :: ProbeLength(start, i) < q < ProbeLength(start, i + 1) ==> !Prime(q)
  {
    NextPrimeOfSpec(ProbeLength(start, i) + 1);
  }

  /** Every length is prime when the start is, and after one or more
      escalations it is prime whatever the start. */
  lemma ProbeLengthPrime(start: nat, i: nat)
    requires Prime(start) || i > 0
    ensures Prime(ProbeLength(start, i))
  {
    if i > 0 {
      ProbeLengthStep(start, i - 1);
    }
  }

  /** Lengths strictly increase with the attempt number. */
  lemma {:induction false} ProbeLengthsAscend(start: nat, i: nat, j: nat)
    requires i < j
    ensures ProbeLength(start, i) < ProbeLength(start, j)
    decreases j
  {
    ProbeLengthStep(start, j - 1);
    if i < j - 1 {
      ProbeLengthsAscend(start, i, j - 1);
    }
  }

  /** The short code tried at attempt `i`. */
  ghost function Candidate(digest: string, start: nat, i: nat): (code: string)
  {
    Prefix(digest, ProbeLength(start, i))
  }

  /** While the lengths stay below the digest's length, every attempt tries a
      different short code. */
  lemma CandidatesDistinct(digest: string, start: nat, i: nat, j: nat)
    requires i < j && ProbeLength(start, i) < |digest|
    ensures Candidate(digest, start, i) != Candidate(digest, start, j)
  {
    ProbeLengthsAscend(start, i, j);
  }

  /** Once a length reaches the digest's length, every later attempt tries the
      whole digest again. */
  lemma CandidatesSaturate(digest: string, start: nat, i: nat, j: nat)
    requires i <= j && ProbeLength(start, i) >= |digest|
    ensures Candidate(digest, start, j) == digest
  {
    if i < j {
      ProbeLengthsAscend(start, i, j);
    }
  }

  /** A code created when the collection held `n` documents has at least as
      many characters as the smallest prime above `n`, unless the digest is
      shorter, in which case it is the whole digest. */
  lemma CreatedCodeLength(digest: string, n: nat, i: nat)
    ensures var code, floor := Candidate(digest, NextPrimeOf(n + 1), i), NextPrimeOf(n + 1);
            floor > n && Prime(floor) &&
            (if floor <= |digest| then |code| >= floor else code == digest)
  {
    StartLength(n);
    var start := NextPrimeOf(n + 1);
    if start > |digest| {
      CandidatesSaturate(digest, start, 0, i);
    }
  }

  // ---------------------------------------------------------------------------
  // The probe loop of shortenUrl

  /** None of the first `k` candidates holds a record of `longUrl`. */
  ghost predicate NoneHoldsTarget(records: map<string, string>, digest: string, start: nat, k: nat, longUrl: string) {
    forall i :: 0 <= i < k ==> !HoldsTarget(records, Candidate(digest, start, i), longUrl)
  }

  /** Each of the first `k` candidates is taken by a record of another long URL. */
  ghost predicate AllTakenByOthers(records: map<string, string>, digest: string, start: nat, k: nat, longUrl: string) {
    forall i :: 0 <= i < k ==>
      Candidate(digest, start, i) in records && !HoldsTarget(records, Candidate(digest, start, i), longUrl)
  }

  /** A claimed short code, created now or reused; an insert that failed for a
      reason other than a duplicate key; or the attempt budget spent. */
  datatype ProbeResult = Claimed(shortCode: string, created: bool) | InsertFailed | Exhausted

  /** The loop of `shortenUrl`: try `digest.slice(0, L)` for L = `start` and
      then successive primes. A free code is inserted; a code holding the same
      long URL is reused; a code holding another long URL, or an insert that
      lost a race (duplicate key), moves to the next prime length; any other
      insert error stops. `attempt` is the number of escalations made. */
  method Probe(db: UrlCollection, digest: string, start: nat, longUrl: string)
    returns (r: ProbeResult, ghost attempt: nat)
    requires db.Valid()
    modifies db
    ensures db.Valid()
    ensures attempt <= MaxAttempts && (r.Exhausted? <==> attempt == MaxAttempts)
    ensures NoneHoldsTarget(old(db.records), digest, start, attempt, longUrl)
    ensures r.Claimed? ==> r.shortCode == Candidate(digest, start, attempt)
    ensures r.Claimed? && r.created ==>
              r.shortCode !in old(db.records) && db.records == old(db.records)[r.shortCode := longUrl] &&
              db.order == old(db.order) + [r.shortCode]
    ensures !(r.Claimed? && r.created) ==> db.records == old(db.records) && db.order == old(db.order)
    ensures r.Claimed? && !r.created ==> HoldsTarget(old(db.records), r.shortCode, longUrl)
    ensures r.InsertFailed? ==> Candidate(digest, start, attempt) !in old(db.records)
    ensures AllTakenByOthers(old(db.records), digest, start, MaxAttempts, longUrl) ==> r.Exhausted?
  {
    var length: int := start;
    var attempts: nat := 0;
    var candidate := Prefix(digest, length);
    while attempts < MaxAttempts
      invariant attempts <= MaxAttempts
      invariant length == ProbeLength(start, attempts) && candidate == Candidate(digest, start, attempts)
      invariant db.Valid() && db.records == old(db.records) && db.order == old(db.order)
      invariant NoneHoldsTarget(db.records, digest, start, attempts, longUrl)
    {
      var existing := db.FindByShortCode(candidate);
      if existing.None? {
        var inserted := db.Create(candidate, longUrl);
        if inserted == Inserted {
          return Claimed(candidate, true), attempts;
        } else if inserted == Failed {
          return InsertFailed, attempts;
        }
        // a concurrent writer claimed the code first: escalate
      } else if existing.value == longUrl {
        return Claimed(candidate, false), attempts;
      }
      length := NextPrime(length + 1);
      candidate := Prefix(digest, length);
      attempts := attempts + 1;
    }
    return Exhausted, attempts;
  }

  // ---------------------------------------------------------------------------
  // shortenUrl

  /** The response of `POST /shorten`. */
  datatype ShortenResult =
    | Shortened(shortCode: string, shortUrl: string, longUrl: string)
    | LongUrlRequired
    | DatabaseError
    | ProbesExhausted

  /** `shortenUrl`: reuse the short code of a document that already has this
      long URL; otherwise count the documents, start at the smallest prime
      above the count and probe prefixes of the base-62 SHA-256 digest.
      `attempt` is the number of escalations the probe made. */
  method ShortenUrl(db: UrlCollection, env: Env, sha256: string -> Word256, longUrl: string)
    returns (r: ShortenResult, ghost attempt: nat)
    requires db.Valid()
    modifies db
    ensures db.Valid()
    ensures r == LongUrlRequired <==> longUrl == ""
    ensures r.Shortened? ==>
              r.longUrl == longUrl && r.shortUrl == BuildShortUrl(env, r.shortCode) && r.shortCode != "" &&
              RedirectUrl(db, r.shortCode) == Redirect(longUrl) &&
              db.FindByLongUrl(longUrl) == Some(r.shortCode)
    ensures r.Shortened? ==>
              (db.records == old(db.records) && db.order == old(db.order)) ||
              (r.shortCode !in old(db.records) && db.records == old(db.records)[r.shortCode := longUrl] &&
               db.order == old(db.order) + [r.shortCode])
    ensures !r.Shortened? ==> db.records == old(db.records) && db.order == old(db.order)
    ensures HasTarget(old(db.records), longUrl) ==>
              r.Shortened? && r.shortCode == old(db.FindByLongUrl(longUrl)).value &&
              db.records == old(db.records) && db.order == old(db.order)
    ensures db.records != old(db.records) ==>
              r.Shortened? && !HasTarget(old(db.records), longUrl) && attempt < MaxAttempts &&
              r.shortCode == Candidate(ToBase62(sha256(longUrl)), NextPrimeOf(|old(db.records)| + 1), attempt)
    ensures r.Shortened? && !HasTarget(old(db.records), longUrl) ==>
              LastSegment(r.shortUrl) == r.shortCode
    ensures r == ProbesExhausted ==>
              NoneHoldsTarget(old(db.records), ToBase62(sha256(longUrl)), NextPrimeOf(|old(db.records)| + 1), MaxAttempts, longUrl)
    ensures longUrl != "" && !HasTarget(old(db.records), longUrl) &&
            AllTakenByOthers(old(db.records), ToBase62(sha256(longUrl)), NextPrimeOf(|old(db.records)| + 1), MaxAttempts, longUrl)
            ==> r == ProbesExhausted
    ensures TargetsUnique(old(db.records)) ==> TargetsUnique(db.records)
  {
    attempt := 0;
    if longUrl == "" {
      return LongUrlRequired, attempt;
    }
    var existing := db.FindByLongUrl(longUrl);
    if existing.Some? {
      var code := existing.value;
      return Shortened(code, BuildShortUrl(env, code), longUrl), attempt;
    }
    var n := db.CountDocuments();
    var start := NextPrime(n + 1);
    var digest := Sha256ToBase62(longUrl, sha256);
    var probe;
    probe, attempt := Probe(db, digest, start, longUrl);
    match probe
    case Claimed(code, created) =>
      r := Shortened(code, BuildShortUrl(env, code), longUrl);
      if created {
        assert HoldsTarget(db.records, code, longUrl);
        ghost var found := db.FindByLongUrl(longUrl);
        InsertIsFound(old(db.records), code, longUrl, found.value);
        if TargetsUnique(old(db.records)) {
          InsertKeepsTargetsUnique(old(db.records), code, longUrl);
        }
      }
      DigestPrefixSegment(env, sha256(longUrl), code);
    case InsertFailed =>
      r := DatabaseError;
    case Exhausted =>
      r := ProbesExhausted;
  }

  /** Shortening the same long URL twice writes at most one document, and the
      second call returns exactly what the first returned: `findOne` finds the
      document the first call returned or created. */
  method ShortenTwice(db: UrlCollection, env: Env, sha256: string -> Word256, longUrl: string)
    returns (first: ShortenResult, second: ShortenResult)
    requires db.Valid()
    modifies db
    ensures first.Shortened? ==> second == first
    ensures db.records == old(db.records) ||
            exists code :: code !in old(db.records) && db.records == old(db.records)[code := longUrl]
  {
    ghost var attempt;
    first, attempt := ShortenUrl(db, env, sha256, longUrl);
    ghost var between := db.records;
    second, attempt := ShortenUrl(db, env, sha256, longUrl);
    if first.Shortened? {
      assert HoldsTarget(between, first.shortCode, longUrl);
      assert db.records == between;
    }
  }
}
