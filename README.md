# Linksy short-code assignment, modelled in Dafny

Linksy is a URL shortener. `POST /shorten` takes a long URL and returns a
short code together with a clickable short URL. `GET /r/:shortCode` redirects
to the long URL. The one piece of real logic is in
`backend/controllers/urlController.js`, and this project models it:

- **Digest.** The SHA-256 value of the long URL is rewritten in base 62:
  alphabet `0-9a-zA-Z`, most significant digit first, and zero becomes `"0"`
  (module `Base62`, file `base62.dfy`).
- **Lengths.** Primality is tested by trial division. `nextPrime(start)` is
  the smallest prime that is at least `max(2, start)`. The first candidate
  short code is the first `nextPrime(n + 1)` characters of the digest, or all
  of it when the digest is shorter. Here `n` is the number of documents in the
  collection (module `Primes`, file `primes.dfy`).
- **Store.** The `Url` collection is a class `UrlCollection` whose field
  `records` maps each short code to its long URL. A map cannot hold a key
  twice, which stands for the unique index on `shortCode`. The field `order`
  lists the short codes in insertion order, which stands for the natural
  order in which `findOne({ longUrl })` scans. The class also has the four
  store operations the controller uses (module `UrlModel`, file
  `url_model.dfy`).
- **Controller** (module `UrlController`, file `url_controller.dfy`):
  - `buildShortUrl`;
  - `redirectUrl`;
  - the probe loop of `shortenUrl`, modelled as the method `Probe`;
  - `shortenUrl` itself, modelled as `ShortenUrl`.

**Probe.** The loop tries `digest.slice(0, L)` as the short code.
- If the code is free, it inserts the document.
- If the code already holds the same long URL, it reuses the code.
- If the code holds a different long URL, or the insert loses a race (a
  duplicate-key error), it moves `L` to the next prime.
- Any other insert error stops the loop.
- After 10 escalations it gives up.

**What is external.**
- SHA-256 is a parameter `sha256: string -> Word256`, where a `Word256` is a
  natural number below 2^256.
- The environment variables `BACKEND_URL` and `FRONTEND_URL` are passed in as
  the value `Env`. An unset variable is the empty string, which JavaScript's
  `||` skips in the same way.
- A concurrent writer can appear only through `UrlCollection.Create`, which
  may report a duplicate key for a code that was free when it was looked up.

**Split of `shortenUrl`.** The loop of `shortenUrl` (lines 87-141) is the
separate method `Probe`, and `ShortenUrl` calls it. In a purely sequential run
the reuse branch (lines 123-129) cannot be taken after the fast path
(lines 69-76) has missed, because only another writer could have stored the
same long URL in between. `Probe` specifies that branch on its own, for any
store.

**Digest length.** The base-62 digest has at most 43 characters
(`Base62.DigestLength`). Once the collection holds 43 or more documents, the
starting length is at least 47. From then on every candidate is the whole
digest (`UrlController.CandidatesSaturate`, `UrlController.CreatedCodeLength`),
so escalating can no longer change the code that is tried. The source's
comment at lines 91-92 calls this case "very unlikely". The model keeps the
code's behaviour exactly as written.

## Model

| member | source | states |
|---|---|---|
| `Base62.AlphabetAt` | backend/controllers/urlController.js:12 | position d of the alphabet string holds the digit of value d: decimal digits, then lower-case, then upper-case letters |
| `Base62.DigitValue` | backend/controllers/urlController.js:12 | the value of an alphabet character is below 62, and the digit of that value is the character itself |
| `Base62.CharsDecode` | backend/controllers/urlController.js:12 | every position below 62 holds an alphabet character whose value is that position, so the alphabet is a bijection onto 0..61 |
| `Base62.ToBase62Spec` | backend/controllers/urlController.js:16-26 | value 0 gives `"0"`; every output is non-empty and uses only the 62-character alphabet; for a positive value the first character is not `'0'`; decoding most significant digit first gives the value back |
| `Base62.DigitsRoundTrip` | backend/controllers/urlController.js:19-24 | the digits the loop emits for v decode to v |
| `Base62.DigitsOfValue` | backend/controllers/urlController.js:19-24 | the other direction: a digit string without a leading `'0'` is exactly the digit sequence of its own value |
| `Base62.ToBase62Canonical` | backend/controllers/urlController.js:16-26 | every canonical base-62 text (`"0"`, or no leading `'0'`) is the output for its value |
| `Base62.ToBase62Injective` | backend/controllers/urlController.js:9-27 | different hash values give different digests |
| `Base62.DigestLength` | backend/controllers/urlController.js:10-26 | the base-62 text of a 256-bit value has between 1 and 43 characters |
| `Base62.Sha256ToBase62` | backend/controllers/urlController.js:9-27 | the loop that prepends `chars[value % 62]` and divides by 62 returns exactly the base-62 text of the hash value, with `"0"` for zero |
| `Primes.OddTrialDivision` | backend/controllers/urlController.js:33-37 | for odd n > 3, n is prime exactly when no odd i >= 3 with i*i <= n divides n |
| `Primes.TrialDivisionComplete` | backend/controllers/urlController.js:34-37 | once i * i > n and no odd i' in [3, i) divides an odd n > 3, n is prime |
| `Primes.IsPrime` | backend/controllers/urlController.js:30-38 | the trial-division loop answers true exactly for primes: false for n <= 1, true for 2 and 3, false for other even numbers |
| `Primes.SearchStart` | backend/controllers/urlController.js:42 | the search starts at `max(2, start)`: exactly 2 when `start < 2`, exactly `start` otherwise |
| `Primes.PrimeAbove` | backend/controllers/urlController.js:43 | there is a prime above every bound n, and one no larger than n! + 1, so the counting loop of `nextPrime` ends |
| `Primes.SearchPrimeFinds` | backend/controllers/urlController.js:43 | counting upwards from x, when a prime lies ahead within the bound, stops at the least prime from the start of the search |
| `Primes.NextPrimeOfSpec` | backend/controllers/urlController.js:41-45 | the smallest prime at least `max(2, start)`: it is prime, at least `max(2, start)`, and no prime lies between `max(2, start)` and it |
| `Primes.NextPrimeUnique` | backend/controllers/urlController.js:41-45 | that smallest prime is unique |
| `Primes.NextPrime` | backend/controllers/urlController.js:41-45 | the counting loop returns exactly `NextPrimeOf(start)`, the smallest prime at least `max(2, start)` (`Primes.NextPrimeOfSpec`) |
| `Primes.StartLength` | backend/controllers/urlController.js:81-82 | `nextPrime(n + 1)` is the smallest prime strictly greater than n, and it is 2 when n = 0 |
| `UrlModel.InsertKeepsTargetsUnique` | backend/controllers/urlController.js:69-76 | inserting a long URL that no document has yet keeps every long URL on at most one document |
| `UrlModel.FirstHolding` | backend/controllers/urlController.js:69 | the scan in natural order returns a stored short code that holds the long URL, and none exactly when no scanned code holds it |
| `UrlModel.FirstHoldingIsFirst` | backend/controllers/urlController.js:69 | the scan returns the earliest code in natural order that holds the long URL |
| `UrlModel.UrlCollection.FindByLongUrl` | backend/controllers/urlController.js:69 | `findOne({ longUrl })` returns a short code whose document has this long URL, and none exactly when no document has it; the answer is a function of the collection, the first match in natural order |
| `UrlModel.InsertIsFound` | backend/controllers/urlController.js:69-102 | after a long URL that no document had is inserted, the new code is the only document holding it, so `findOne({ longUrl })` finds it |
| `UrlModel.UrlCollection.CountDocuments` | backend/controllers/urlController.js:79 | the number of documents in the collection |
| `UrlModel.UrlCollection.FindByShortCode` | backend/controllers/urlController.js:97 | some exactly when the short code is stored, and then the stored long URL |
| `UrlModel.UrlCollection.Create` | backend/models/Url.js:4-8 | an empty field is rejected; a short code that is already stored is a duplicate key; success adds exactly one document at a short code that was absent, last in natural order; every other outcome leaves the documents unchanged; the required-field invariant is kept |
| `UrlController.ShortUrlBase` | backend/controllers/urlController.js:52 | BACKEND_URL if it is set, else FRONTEND_URL if it is set, else the default; never empty |
| `UrlController.StripTrailingSlash` | backend/controllers/urlController.js:54 | the result is a prefix of the input that is at most one character shorter, and it is shorter exactly when the input ends in `/` |
| `UrlController.LastSegmentAfterSlash` | backend/controllers/urlController.js:54 | the last path segment of `prefix + "/" + code` is `code` when `code` contains no slash |
| `UrlController.BuildShortUrl` | backend/controllers/urlController.js:51-55 | for every code: the short URL is the base with at most one trailing slash removed (exactly one when the base ends in `/`), followed by `/r/` and the code |
| `UrlController.ShortUrlShape` | backend/controllers/urlController.js:54 | for a code without `/`, the last path segment of the short URL gives the code back |
| `UrlController.DigestPrefixSegment` | backend/controllers/urlController.js:93 | a prefix of the base-62 digest, used as a short code, is the last path segment of its short URL |
| `UrlController.DigitsHaveNoSlash` | backend/controllers/urlController.js:12 | base-62 text never contains `/`, so a digest prefix is one path segment |
| `UrlController.RedirectUrl` | backend/controllers/urlController.js:152-165 | not found exactly when the short code is absent; otherwise a redirect to the stored long URL |
| `UrlController.Prefix` | backend/controllers/urlController.js:93 | `slice(0, L)` is a prefix of the digest of length min(L, digest length) |
| `UrlController.ProbeLength` | backend/controllers/urlController.js:132-133 | every length is at least the start length |
| `UrlController.ProbeLengthPrime` | backend/controllers/urlController.js:132-133 | every length is prime when the start is prime, and after one or more escalations it is prime whatever the start |
| `UrlController.ProbeLengthStep` | backend/controllers/urlController.js:132-133 | each escalation `L = nextPrime(L + 1)` gives a prime strictly greater than L, and no prime is skipped |
| `UrlController.ProbeLengthsAscend` | backend/controllers/urlController.js:131-135 | the lengths strictly increase with the attempt number |
| `UrlController.CandidatesDistinct` | backend/controllers/urlController.js:93 | while a length is below the digest's length, that candidate differs from every later candidate |
| `UrlController.CandidatesSaturate` | backend/controllers/urlController.js:91-93 | once a length reaches the digest's length, every later candidate is the whole digest |
| `UrlController.CreatedCodeLength` | backend/controllers/urlController.js:79-93 | a code tried when there were n documents has at least as many characters as the smallest prime above n, unless the digest is shorter, in which case the code is the whole digest |
| `UrlController.Probe` | backend/controllers/urlController.js:87-141 | (1) at most 10 escalations, and it reports exhaustion exactly after 10; (2) every code it returns is the candidate `digest.slice(0, L)` of its attempt; (3) no earlier candidate held the same long URL; (4) a created code was absent and is the only document added; (5) a reused code already held the long URL and nothing is written; (6) on an insert failure or exhaustion nothing is written; (7) if every candidate holds a different long URL, the probe reports exhaustion |
| `UrlController.ShortenUrl` | backend/controllers/urlController.js:63-146 | (1) the long URL is required; (2) if a document already has the long URL, the code `findOne({ longUrl })` returns is returned and nothing is written; (3) a success writes at most one document, at a code that was absent; (4) a new code is the digest candidate for start length `nextPrime(n + 1)`; (5) after a success the code is non-empty, `redirectUrl` of the code finds the long URL, `findOne({ longUrl })` finds the code, and the returned short URL is `buildShortUrl(code)`; (6) failures write nothing; (7) no two documents sharing a long URL stays true |
| `UrlController.ShortenTwice` | backend/controllers/urlController.js:69-76 | on any collection, shortening the same long URL twice writes at most one document, and a successful first answer is repeated exactly |

## Left out

- SHA-256 (`crypto.createHash`, line 10) is a library call. It is the parameter `sha256`, and only its 256-bit range is used. The hex-string round trip through `BigInt("0x" + hex)` is taken as the identity on that value.
- Express plumbing is left out: `req` and `res`, HTTP status codes, JSON shaping, the redirect response itself, and `console.error`. The responses are the datatypes `ShortenResult` and `RedirectResponse`.
- `UrlModel.UrlCollection.FindByLongUrl`, `CountDocuments` and `FindByShortCode` never fail. The outer `catch` of `shortenUrl` (lines 142-145) and of `redirectUrl` (lines 161-164) is therefore not modelled; only `Create` can fail.
- `UrlModel.UrlCollection.FindByLongUrl` scans in insertion order (the field `order`). MongoDB does not promise that its natural order is insertion order; the model assumes it, so that `findOne` is deterministic.
- `UrlModel.UrlCollection.Create`: a lost race does not add the winning writer's document to `records`. Other writers are not modelled, so "store unchanged" means unchanged by this call.
- `UrlController.ShortenTwice`, `UrlController.ShortenUrl` results (5) and (7), and `UrlModel.InsertKeepsTargetsUnique` hold only when no concurrent writer stores the same long URL during the call. When two requests shorten the same new URL at once, the loser of the race on the first candidate escalates and inserts a second document for that URL. The source then keeps two documents for one long URL, and `findOne({ longUrl })` answers a repeated request with the winner's code, not the code the loser returned.
- Concurrency beyond that single duplicate-key outcome is not modelled: no threads and no interleaved writes.
- The `createdAt` field (`backend/models/Url.js:7`) needs a clock and is not modelled.
- A `longUrl` that is missing from the request body is the empty string. Non-string JSON values are not modelled.
- `nextPrime`'s `Math.floor` is the identity, because every caller passes an integer. JavaScript number precision is not modelled; the model uses unbounded integers.
- `backend/index.js`, `backend/routes/urlRoutes.js` and the frontend files are server wiring and user interface, and are not part of this model.
