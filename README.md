# CopyRightBC backend: duplicate gate and registration, in Dafny

This project models the core of the CopyRightBC backend: the gate that rejects a submitted work as a copy of an already registered one, and the three request handlers around the `registered_works` table.

- `similarity.dfy` (module `Similarity`) models `backend/utils/geminiSimilarity.js`.
  - `FetchText` is `getFileFromIPFS`, over the gateway's answers for one call (`Gateway`). An unanswered hash, an error or an empty body all give `""`.
  - `CompareDocumentsLocal` returns 0 when either text is empty. Otherwise it returns the library coefficient times 100. The coefficient `cmp` is a parameter: any total function into [0,1].
  - `FetchAll` is the order-preserving `Promise.all(existingHashes.map(...))`.
  - `IsCopiedWork` is the `for…of` scan, written as a method with a loop. Its ghost out-parameter `scored` lists the hashes it compared, in order.
  - `Scan` and `Gate` are the same decision written as functions. `IsFirstHit` is the declarative reference: an entry that has content, scores at least 80, and has no earlier entry that does. The lemmas tie these together.
- `works.dfy` (module `Works`) models `backend/controllers/user_controller.js`.
  - The class `Registry` holds the table as `rows: seq<WorkRecord>` and the auto-increment key `nextId`. `rows` is kept in the order the store lists it, newest first, so an insert puts the new row in front.
  - `RegisterWork`, `GetAllWorks` and `GetWorksByWallet` return a `Response`, which is a status code plus a `Payload`.
  - A failing database call is modelled as an `Option<string>` parameter carrying the error message.
  - `AddRegisteredWork`, `StoredStatus`, `NewRecord` and `WorksOf` model the parts of `backend/model/user_info.js` that the controller relies on.
- `optional.dfy` holds `Option` and `Present`, which is JavaScript truthiness for a string field.

The comment above `isCopiedWork` says "similarity > 80%". The code tests `similarity >= 80`, and the model follows the code: the threshold is inclusive.

## Model

| member | source | states |
|---|---|---|
| `Similarity.FetchText` | backend/utils/geminiSimilarity.js:7-18 | Fetching never fails. A non-empty result is exactly the body the gateway sent for that hash. A missing answer or an error gives `""`. |
| `Similarity.FailureIsNoContent` | backend/utils/geminiSimilarity.js:13-17 | For any hash, a failed fetch gives the same verdict as an empty body: the gate cannot tell them apart. |
| `Similarity.CompareDocumentsLocal` | backend/utils/geminiSimilarity.js:23-27 | The score is 0 when either text is empty. Otherwise it is 100 × the coefficient, so it always lies in [0,100]. |
| `Similarity.FetchAll` | backend/utils/geminiSimilarity.js:37-42 | There is one fetched document per existing hash, in the same order, each holding that hash and its fetched text. |
| `Similarity.Scan` | backend/utils/geminiSimilarity.js:44-59 | A copied verdict's similarity lies in [80,100]. Its match is the hash of an entry whose text is non-empty. |
| `Similarity.ScanNotCopiedIff` | backend/utils/geminiSimilarity.js:44-59 | The scan says "not copied" exactly when no entry has content and scores ≥ 80. The threshold is inclusive. |
| `Similarity.ScanReportsFirstHit` | backend/utils/geminiSimilarity.js:44-56 | If entry i is the first hit, the scan reports entry i's hash with entry i's score. |
| `Similarity.ScanCopiedIsFirstHit` | backend/utils/geminiSimilarity.js:44-56 | Every copied verdict is the first hit, in input order, with its own score. Every earlier entry with content scored below 80. |
| `Similarity.GateNotCopiedIff` | backend/utils/geminiSimilarity.js:33-59 | An empty or unfetchable candidate is never copied, and neither is an empty `existingHashes`. Otherwise the gate says "not copied" exactly when no existing document with content scores ≥ 80 against the candidate. |
| `Similarity.GateCopiedIsFirstHit` | backend/utils/geminiSimilarity.js:38-56 | A copied verdict's match is an element of `existingHashes`. It is the first hit in that order, and the verdict carries that hit's score. |
| `Similarity.GateReportsFirstHit` | backend/utils/geminiSimilarity.js:44-56 | For a non-empty candidate, the first hit of `existingHashes` is exactly the verdict. |
| `Similarity.Gate` | backend/utils/geminiSimilarity.js:33-59 | An empty or unfetchable candidate, and an empty `existingHashes`, give "not copied". A copied verdict's similarity lies in [80,100] and its match is an element of `existingHashes`. |
| `Similarity.IsCopiedWork` | backend/utils/geminiSimilarity.js:33-60 | The loop computes the gate's verdict. An empty candidate scores nothing. Otherwise exactly the existing entries with content are scored, in order, up to and including the first hit and none after it. |
| `Works.StatusNotRequired` | backend/controllers/user_controller.js:14 | Validation, which tests title, type, creator, wallet_id and ipfs_hash for presence, does not depend on `status`: changing or dropping the status never changes whether a request passes. |
| `Works.StoredStatus` | backend/model/user_info.js:31 | The stored status is the request's status when truthy, and `'Registered'` otherwise. It is never empty. |
| `Works.NewRecord` | backend/model/user_info.js:25-32 | The inserted row carries the new key and the request's title, type, creator, wallet_id and ipfs_hash unchanged. Its status is the request's status defaulted to `'Registered'` (`StoredStatus`), so it is non-empty. |
| `Works.ExistingHashes` | backend/controllers/user_controller.js:19-20 | The gate receives exactly the `ipfs_hash` of every stored row, in store order. |
| `Works.WorksOf` | backend/model/user_info.js:66-85 | A wallet's rows are exactly the stored rows whose `wallet_id` is that wallet. The list is empty when there are none. A newest-first listing (keys falling, so no row twice) stays newest first. |
| `Works.Registry.AddRegisteredWork` | backend/model/user_info.js:11-42 | The insert adds exactly one row under the next key and returns that key. The new row is the newest, so it comes first in the listing. The table invariant (keys falling along the listing, every row complete) still holds afterwards. |
| `Works.Registry.RegisterWork` | backend/controllers/user_controller.js:11-45 | Missing required fields give 400 and a read failure gives 500. A copied verdict gives 400 with its similarity (≥ 80) and a stored match. An insert failure gives 500; otherwise 201 with the new key and the request data as given. Only a 201 changes the store, adding one row at the front of the newest-first listing, and only for a candidate no stored document with content matches. |
| `Works.Registry.GetAllWorks` | backend/controllers/user_controller.js:47-66 | A read failure gives 500 with its message. An empty table gives 200 with `data: []`. Otherwise the result is 200 with `count` equal to the number of rows and `data` equal to the rows. The listing is newest first, holds no key twice, and every row in it is complete. The store is only read. |
| `Works.Registry.GetWorksByWallet` | backend/controllers/user_controller.js:68-97 | A missing wallet id gives 400 before the store is read. A read failure gives 500. Otherwise the result is 200 carrying that wallet id, with `data` holding exactly that wallet's rows (`[]` when there are none), newest first with no key twice. The store is only read. |

What `Works.Registry.RegisterWork` states:

- A missing or empty title, type, creator, wallet_id or ipfs_hash gives 400 "Missing required fields". `status` is not required.
- A store read failure gives 500 with its message.
- A copied verdict over the stored hashes gives 400 with that verdict's similarity (≥ 80) and match (a stored hash).
- An insert failure gives 500.
- Otherwise the result is 201 with the new key and the request data as given.
- Only a 201 changes the store, and it adds exactly one row, in front of the newest-first listing.
- A 201 happens only for a candidate that no stored document with content matches.

## Left out

- HTTP retrieval from the IPFS gateway is left out: the axios call, its URL and its 15 s timeout. Each call to the gate is given the gateway's answers as a map, and a hash with no answer stands for a timeout or a transport error.
- Similarity.Gate: every fetch of one hash within one call gets the same answer from `Gateway`. In the source, the candidate's fetch and the fetch of a stored copy with the same hash are separate requests, and so are the fetches of a hash stored twice. Each can fail on its own: the candidate can be fetched while its stored copy times out and is skipped. Those independent failures are not modelled.
- A response body that is not a string (`res.data?.toString()`) is not modelled: the gateway's answers are strings.
- The `Promise.all` fan-out is concurrency. It is modelled as the order-preserving map `FetchAll`, because `Promise.all` keeps input order.
- The similarity algorithm of the `string-similarity` library is not modelled. It is an arbitrary function into [0,1], and real numbers stand for JavaScript floats. Symmetry and self-similarity of the score are not claimed, because the shown code does not promise them.
- The library throwing, and so the gate failing inside `registerWork`'s `try`, is not modelled. Nothing else in the gate can throw, because every fetch error is caught.
- All `console.log`/`console.error` output is left out, including the `toFixed(2)` formatting. Message texts that interpolate values ("Similarity: …%", "No registered works found for wallet ID: …") are represented by their payload fields, not by the text.
- Works.Registry.GetAllWorks: the `!works` branch for an absent result is not modelled, because the store read here always yields a sequence.
- The `registration_date` column is not modelled. `ORDER BY registration_date DESC` is modelled as newest first by insertion: each new row goes in front of `rows`. Two rows inserted within the same timestamp could be listed in either order by the store; the model always lists the later insert first.
- Works.Registry.RegisterWork: each request is modelled as one atomic step. The source awaits the store read, the gateway fetches and the insert separately, so concurrent requests can interleave. Two near-identical works submitted together can then both be registered, and the table can grow by more than one row during one request. The model does not capture this.
- `WHERE wallet_id = ?` is modelled as exact string equality. The table's collation is not part of this model.
- Request fields are strings or absent. JavaScript truthiness of non-string JSON values (numbers, booleans) is not modelled.
- Auto-increment keys that a failed insert may consume are not modelled: a failed insert leaves `nextId` unchanged.
- Routing is not part of this model (backend/routes/user_routes.js, where `/:walletId` is declared before `/all`), and neither are module loading, server start-up, the upload route and the IPFS upload.
- The React front ends, the wallet and contract wrappers, and the smart-contract scripts and tests are not part of this model. They are UI and calls into code whose source is not shown.
