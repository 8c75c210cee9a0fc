/** The `Url` collection: documents `{ shortCode, longUrl }` with `shortCode`
    required and unique and `longUrl` required, and the four store operations
    the controller uses (find by long URL, count, find by short code, create). */
module UrlModel {

  datatype Option<T> = None | Some(value: T)

  /** What an attempted insert reports: the new document, a duplicate-key
      error (code 11000), or any other failure (validation, transport). */
  datatype InsertResult = Inserted | DuplicateKey | Failed

  /** The record at `code` maps to `longUrl`. */
  predicate HoldsTarget(records: map<string, string>, code: string, longUrl: string) {
    code in records && records[code] == longUrl
  }

  /** Some record maps to `longUrl`. */
  predicate HasTarget(records: map<string, string>, longUrl: string) {
    exists code :: code in records && records[code] == longUrl
  }

  /** The first short code, scanning `order`, whose record maps to `longUrl`. */
  function FirstHolding(order: seq<string>, records: map<string, string>, longUrl: string): (code: Option<string>)
    ensures code.Some? ==> code.value in order && HoldsTarget(records, code.value, longUrl)
    ensures code.None? <==> forall i :: 0 <= i < |order| ==> !HoldsTarget(records, order[i], longUrl)
  {
    if order == [] then None
    else if HoldsTarget(records, order[0], longUrl) then Some(order[0])
    else
      var rest := FirstHolding(order[1..], records, longUrl);
      assert forall i :: 1 <= i < |order| ==> order[i] == order[1..][i - 1];
      rest
  }

  /** The scan returns the earliest short code that holds `longUrl`. */
  lemma {:induction false} FirstHoldingIsFirst(order: seq<string>, records: map<string, string>, longUrl: string, j: nat)
    requires j < |order| && HoldsTarget(records, order[j], longUrl)
    requires forall i :: 0 <= i < j ==> !HoldsTarget(records, order[i], longUrl)
    ensures FirstHolding(order, records, longUrl) == Some(order[j])
  {
    if j > 0 {
      FirstHoldingIsFirst(order[1..], records, longUrl, j - 1);
    }
  }

  /** No two records share a long URL. */
  ghost predicate TargetsUnique(records: map<string, string>) {
    forall a, b :: a in records && b in records && records[a] == records[b] ==> a == b
  }

  /** Adding a record for a long URL that no record has yet keeps long URLs unique. */
  lemma InsertKeepsTargetsUnique(records: map<string, string>, code: string, longUrl: string)
    requires TargetsUnique(records) && !HasTarget(records, longUrl)
    ensures TargetsUnique(records[code := longUrl])
  {
    var updated := records[code := longUrl];
    forall a, b | a in updated && b in updated && updated[a] == updated[b]
      ensures a == b
    {
      if a != code && b != code {
        assert records[a] == records[b];
      }
    }
  }

  /** After a long URL that no record had is inserted at `code`, `code` is the
      only record holding it. */
  lemma InsertIsFound(records: map<string, string>, code: string, longUrl: string, found: string)
    requires !HasTarget(records, longUrl)
    requires HoldsTarget(records[code := longUrl], found, longUrl)
    ensures found == code
  {
    assert found != code ==> HoldsTarget(records, found, longUrl);
  }

  class UrlCollection {
    /** The documents, keyed by short code: a map cannot hold a short code
        twice, which is the unique index on `shortCode`. */
    var records: map<string, string>

    /** The short codes in insertion order, standing for the natural order in
        which MongoDB scans the collection. */
    var order: seq<string>

    /** Both fields are required, and Mongoose rejects an empty string for a
        required field; `order` lists every stored short code exactly once. */
    ghost predicate Valid()
      reads this
    {
      (forall code :: code in records ==> code != "" && records[code] != "") &&
      (forall code :: code in records <==> code in order) &&
      (forall i, j :: 0 <= i < j < |order| ==> order[i] != order[j])
    }

    constructor ()
      ensures Valid() && records == map[] && order == []
    {
      records := map[];
      order := [];
    }

    /** `Url.findOne({ longUrl })`: the first document in natural order that
        has this long URL, if any. */
    function FindByLongUrl(longUrl: string): (code: Option<string>)
      reads this
      requires Valid()
      ensures code.Some? ==> HoldsTarget(records, code.value, longUrl)
      ensures code.None? <==> !HasTarget(records, longUrl)
    {
      FirstHolding(order, records, longUrl)
    }

    /** `Url.countDocuments()`. */
    method CountDocuments() returns (n: nat)
      ensures n == |records|
    {
      n := |records|;
    }

    /** `Url.findOne({ shortCode })`: the long URL stored under a short code. */
    function FindByShortCode(shortCode: string): (longUrl: Option<string>)
      reads this
      ensures longUrl.Some? <==> shortCode in records
      ensures longUrl.Some? ==> records[shortCode] == longUrl.value
    {
      if shortCode in records then Some(records[shortCode]) else None
    }

    /** `Url.create({ longUrl, shortCode })`. Validation rejects an empty field;
        the unique index rejects a short code already present; otherwise the
        insert either succeeds, loses a race against a concurrent writer that
        claimed the same short code (reported as a duplicate key), or fails in
        the database. The writer that won the race is not part of this model,
        so a lost race leaves the records as they were. */
    method Create(shortCode: string, longUrl: string) returns (res: InsertResult)
      requires Valid()
      modifies this
      ensures Valid()
      ensures res == Inserted ==>
                shortCode !in old(records) && records == old(records)[shortCode := longUrl] &&
                order == old(order) + [shortCode]
      ensures res != Inserted ==> records == old(records) && order == old(order)
      ensures (shortCode == "" || longUrl == "") ==> res == Failed
      ensures shortCode != "" && longUrl != "" && shortCode in old(records) ==> res == DuplicateKey
    {
      if shortCode == "" || longUrl == "" {
        res := Failed;
      } else if shortCode in records {
        res := DuplicateKey;
      } else if * {
        records := records[shortCode := longUrl];
        order := order + [shortCode];
        res := Inserted;
      } else if * {
        res := DuplicateKey;
      } else {
        res := Failed;
      }
    }
  }
}
