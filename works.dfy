/**
 * The registration controller of the backend (backend/controllers/user_controller.js)
 * over the `registered_works` table, seen as a sequence of rows in the order the
 * store lists them: newest first (`ORDER BY registration_date DESC`), so a new row
 * goes to the front.
 *
 * A failing database call is a parameter: `Some(message)` makes that call throw.
 */
module Works {
  import opened Optional
  import opened Similarity

  /** The fields of a registration request body; a field the client left out is None. */
  datatype WorkData = WorkData(
    title: Option<string>,
    workType: Option<string>,
    creator: Option<string>,
    walletId: Option<string>,
    ipfsHash: Option<string>,
    status: Option<string>)

  /** One row of `registered_works`; `id` is the auto-increment key. */
  datatype WorkRecord = WorkRecord(
    id: nat,
    title: string,
    workType: string,
    creator: string,
    walletId: string,
    ipfsHash: Hash,
    status: string)

  /** The JSON bodies the handlers send. */
  datatype Payload =
    | MissingFields                                          // 'Missing required fields'
    | CopiedWork(similarity: real, matchHash: Hash)          // 'Copied Work Detected!'
    | Registered(registrationId: nat, details: WorkData)     // 'Work successfully registered!'
    | ServerError(message: string, error: string)
    | NoWorks                                                // 'No registered works found.', data: []
    | AllWorks(count: nat, data: seq<WorkRecord>)
    | MissingWallet                                          // 'Wallet ID parameter is missing.'
    | NoWorksForWallet(walletId: string)                     // data: []
    | WalletWorks(walletId: string, count: nat, data: seq<WorkRecord>)

  /** An HTTP status code and the body sent with it. */
  datatype Response = Response(code: int, body: Payload)

  const RegisterFailed := "Server error"
  const ListAllFailed := "Failed to retrieve all registered works."
  const ListByWalletFailed := "Failed to retrieve works by wallet ID."
  const DefaultStatus := "Registered"

  /** title, type, creator, wallet_id and ipfs_hash must be present and non-empty. */
  predicate HasRequiredFields(d: WorkData)
  {
    Present(d.title) && Present(d.workType) && Present(d.creator) &&
    Present(d.walletId) && Present(d.ipfsHash)
  }

  /** Validation does not look at `status`: any status, or none, leaves the outcome unchanged. */
  lemma StatusNotRequired(d: WorkData, s: Option<string>)
    ensures HasRequiredFields(d.(status := s)) == HasRequiredFields(d)
  {
  }

  /** The status the insert stores: the request's when truthy, else 'Registered'. */
  function StoredStatus(status: Option<string>): (s: string)
    ensures s != ""
    ensures Present(status) ==> s == status.value
    ensures !Present(status) ==> s == DefaultStatus
  {
    if Present(status) then status.value else DefaultStatus
  }

  /** The row addRegisteredWork inserts for a validated request, under key `id`. */
  function NewRecord(id: nat, d: WorkData): (w: WorkRecord)
    requires HasRequiredFields(d)
    ensures w.id == id && w.status == StoredStatus(d.status) && w.status != ""
    ensures Some(w.title) == d.title && Some(w.workType) == d.workType && Some(w.creator) == d.creator
    ensures Some(w.walletId) == d.walletId && Some(w.ipfsHash) == d.ipfsHash
  {
    WorkRecord(id, d.title.value, d.workType.value, d.creator.value, d.walletId.value, d.ipfsHash.value,
      StoredStatus(d.status))
  }

  /** `allWorks.map(w => w.ipfs_hash)`: the hashes of the rows, in the same order. */
  function ExistingHashes(rows: seq<WorkRecord>): (hashes: seq<Hash>)
    ensures |hashes| == |rows|
    ensures forall i :: 0 <= i < |rows| ==> hashes[i] == rows[i].ipfsHash
  {
    if rows == [] then [] else [rows[0].ipfsHash] + ExistingHashes(rows[1..])
  }

  /** Keys fall along the listing: newest first, and no key twice. */
  predicate NewestFirst(rows: seq<WorkRecord>)
  {
    forall i, j :: 0 <= i < j < |rows| ==> rows[i].id > rows[j].id
  }

  /**
   * The rows of one wallet, in store order (`WHERE wallet_id = ? ORDER BY registration_date DESC`):
   * a newest-first listing stays newest first.
   */
  function WorksOf(rows: seq<WorkRecord>, walletId: string): (mine: seq<WorkRecord>)
    ensures |mine| <= |rows|
    ensures forall w :: w in mine ==> w in rows && w.walletId == walletId
    ensures forall w :: w in rows && w.walletId == walletId ==> w in mine
    ensures NewestFirst(rows) ==> NewestFirst(mine)
  {
    if rows == [] then []
    else if rows[0].walletId == walletId then [rows[0]] + WorksOf(rows[1..], walletId)
    else WorksOf(rows[1..], walletId)
  }

  /** Every field the insert writes is non-empty, as validation and the status default ensure. */
  predicate Complete(w: WorkRecord)
  {
    w.title != "" && w.workType != "" && w.creator != "" && w.walletId != "" &&
    w.ipfsHash != "" && w.status != ""
  }

  /** No existing document with content scores at least 80 against the candidate. */
  ghost predicate Original(g: Gateway, cmp: Comparator, newHash: Hash, rows: seq<WorkRecord>)
  {
    forall i :: 0 <= i < |rows| ==>
      !Hit(cmp, FetchText(g, newHash), Doc(rows[i].ipfsHash, FetchText(g, rows[i].ipfsHash)))
  }

  /** The `registered_works` table together with the three request handlers. */
  class Registry {
    var rows: seq<WorkRecord>
    var nextId: nat

    /** Newest first: keys fall along the listing and lie below the next key; every row is complete. */
    ghost predicate Valid()
      reads this
    {
      (forall i :: 0 <= i < |rows| ==> rows[i].id < nextId && Complete(rows[i])) &&
      NewestFirst(rows)
    }

    /** An empty table; MySQL's auto-increment starts at 1. */
    constructor ()
      ensures Valid() && rows == [] && nextId == 1
    {
      rows := [];
      nextId := 1;
    }

    /** addRegisteredWork: adds one row under the next key, newest so first in the listing, and returns that key. */
    method AddRegisteredWork(d: WorkData) returns (insertId: nat)
      requires Valid() && HasRequiredFields(d)
      modifies this
      ensures Valid()
      ensures insertId == old(nextId) && nextId == old(nextId) + 1
      ensures rows == [NewRecord(insertId, d)] + old(rows)
    {
      insertId := nextId;
      rows := [NewRecord(insertId, d)] + rows;
      nextId := nextId + 1;
    }

    /**
     * registerWork: validation (400), then the store read (500 on failure), the gate over
     * the stored hashes in store order (400 with score and match when copied), and the
     * insert (500 on failure, 201 with the new key and the request data as given).
     * Only a 201 changes the store, by exactly one row put in front, and only for a
     * candidate that no stored document with content matches.
     */
    method RegisterWork(req: WorkData, g: Gateway, cmp: Comparator,
                        readError: Option<string>, insertError: Option<string>)
      returns (r: Response)
      requires Valid()
      modifies this
      ensures Valid()
      ensures !HasRequiredFields(req) ==> r == Response(400, MissingFields)
      ensures HasRequiredFields(req) && readError.Some? ==>
        r == Response(500, ServerError(RegisterFailed, readError.value))
      ensures HasRequiredFields(req) && readError.None? ==>
        var v := Gate(g, cmp, req.ipfsHash.value, ExistingHashes(old(rows)));
        if v.Copied? then
          r == Response(400, CopiedWork(v.similarity, v.matchHash))
        else if insertError.Some? then
          r == Response(500, ServerError(RegisterFailed, insertError.value))
        else
          r == Response(201, Registered(old(nextId), req))
      ensures r.code == 201 ==>
        rows == [NewRecord(old(nextId), req)] + old(rows) && nextId == old(nextId) + 1
      ensures r.code != 201 ==> rows == old(rows) && nextId == old(nextId)
      ensures r.code == 201 ==> Original(g, cmp, req.ipfsHash.value, old(rows))
      ensures r.body.CopiedWork? ==>
        r.body.similarity >= Threshold && r.body.matchHash in ExistingHashes(old(rows))
    {
      if !HasRequiredFields(req) {
        return Response(400, MissingFields);
      }
      if readError.Some? {
        return Response(500, ServerError(RegisterFailed, readError.value));
      }
      var allWorks := rows;
      var existingHashes := ExistingHashes(allWorks);
      var plagiarismCheck, scored := IsCopiedWork(g, cmp, req.ipfsHash.value, existingHashes);
      if plagiarismCheck.Copied? {
        GateCopiedIsFirstHit(g, cmp, req.ipfsHash.value, existingHashes);
        return Response(400, CopiedWork(plagiarismCheck.similarity, plagiarismCheck.matchHash));
      }
      if insertError.Some? {
        return Response(500, ServerError(RegisterFailed, insertError.value));
      }
      GateNotCopiedIff(g, cmp, req.ipfsHash.value, existingHashes);
      var insertId := AddRegisteredWork(req);
      r := Response(201, Registered(insertId, req));
    }

    /**
     * getAllWorks: every row with its count, or the empty answer; the store is only read.
     * The listing is newest first, holds no key twice, and every row in it is complete.
     */
    method GetAllWorks(readError: Option<string>) returns (r: Response)
      requires Valid()
      ensures NewestFirst(ResponseData(r))
      ensures forall w :: w in ResponseData(r) ==> Complete(w)
      ensures readError.Some? ==> r == Response(500, ServerError(ListAllFailed, readError.value))
      ensures readError.None? && rows == [] ==> r == Response(200, NoWorks)
      ensures readError.None? && rows != [] ==> r == Response(200, AllWorks(|rows|, rows))
    {
      if readError.Some? {
        return Response(500, ServerError(ListAllFailed, readError.value));
      }
      var works := rows;
      if |works| == 0 {
        return Response(200, NoWorks);
      }
      r := Response(200, AllWorks(|works|, works));
    }

    /**
     * getWorksByWallet: 400 without a wallet id, before the store is read; otherwise
     * that wallet's rows, or the empty answer. The store is only read.
     */
    method GetWorksByWallet(walletId: Option<string>, readError: Option<string>) returns (r: Response)
      requires Valid()
      ensures NewestFirst(ResponseData(r))
      ensures !Present(walletId) ==> r == Response(400, MissingWallet)
      ensures Present(walletId) && readError.Some? ==>
        r == Response(500, ServerError(ListByWalletFailed, readError.value))
      ensures Present(walletId) && readError.None? ==>
        r.code == 200 &&
        (r.body.NoWorksForWallet? || r.body.WalletWorks?) &&
        r.body.walletId == walletId.value &&
        (r.body.WalletWorks? ==> r.body.data != [] && r.body.count == |r.body.data|) &&
        ResponseData(r) == WorksOf(rows, walletId.value) &&
        (forall w :: w in rows && w.walletId == walletId.value <==> w in ResponseData(r))
    {
      if !Present(walletId) {
        return Response(400, MissingWallet);
      }
      if readError.Some? {
        return Response(500, ServerError(ListByWalletFailed, readError.value));
      }
      var works := WorksOf(rows, walletId.value);
      if |works| == 0 {
        return Response(200, NoWorksForWallet(walletId.value));
      }
      r := Response(200, WalletWorks(walletId.value, |works|, works));
    }
  }

  /** The `data` array of a listing response; the empty answers send `data: []`. */
  function ResponseData(r: Response): seq<WorkRecord>
  {
    match r.body
    case AllWorks(_, data) => data
    case WalletWorks(_, _, data) => data
    case _ => []
  }
}
