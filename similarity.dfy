/**
 * The duplicate-detection gate of the backend (backend/utils/geminiSimilarity.js).
 *
 * The IPFS gateway is seen as the answers it gave during one gate call, and the
 * string-similarity library's coefficient as an arbitrary function into [0,1].
 */
module Similarity {

  /** A content address on IPFS. */
  type Hash = string

  /** A similarity coefficient, as `compareTwoStrings` returns it. */
  type Coefficient = c: real | 0.0 <= c <= 1.0

  /** The library's `compareTwoStrings`: any total function into [0,1]. */
  type Comparator = (string, string) -> Coefficient

  /** What the gateway answered for one hash: a body, or an error (HTTP status, timeout, transport). */
  datatype Reply = Body(data: string) | Failure(message: string)

  /** The gateway's answers during one gate call; a hash it never answered for timed out. */
  type Gateway = map<Hash, Reply>

  /** A percentage at or above which a document counts as copied (the bound is inclusive). */
  const Threshold: real := 80.0

  /** One existing document after the parallel fetch. */
  datatype Doc = Doc(hash: Hash, text: string)

  /** The gate's answer: `{copied:false}` or `{copied:true, match, similarity}`. */
  datatype Verdict = NotCopied | Copied(matchHash: Hash, similarity: real)

  /**
   * getFileFromIPFS: never fails; every error, and an empty body, becomes "".
   * A non-empty text is always the body the gateway sent for that hash.
   */
  function FetchText(g: Gateway, h: Hash): (text: string)
    ensures text != "" ==> h in g && g[h] == Body(text)
    ensures h !in g || g[h].Failure? ==> text == ""
    ensures h in g && g[h].Body? ==> text == g[h].data
  {
    if h in g && g[h].Body? then g[h].data else ""
  }

  /** compareDocumentsLocal: 0 when either text is empty, else the coefficient as a percentage. */
  function CompareDocumentsLocal(cmp: Comparator, text1: string, text2: string): (similarity: real)
    ensures 0.0 <= similarity <= 100.0
    ensures text1 == "" || text2 == "" ==> similarity == 0.0
    ensures text1 != "" && text2 != "" ==> similarity == 100.0 * cmp(text1, text2)
  {
    if text1 == "" || text2 == "" then 0.0 else cmp(text1, text2) * 100.0
  }

  /** The `Promise.all(existingHashes.map(...))` fan-out: one document per hash, in input order. */
  function FetchAll(g: Gateway, hashes: seq<Hash>): (docs: seq<Doc>)
    ensures |docs| == |hashes|
    ensures forall i :: 0 <= i < |hashes| ==> docs[i] == Doc(hashes[i], FetchText(g, hashes[i]))
  {
    if hashes == [] then []
    else [Doc(hashes[0], FetchText(g, hashes[0]))] + FetchAll(g, hashes[1..])
  }

  /** An existing document that has content and scores at or above the threshold. */
  predicate Hit(cmp: Comparator, cand: string, d: Doc)
  {
    d.text != "" && CompareDocumentsLocal(cmp, cand, d.text) >= Threshold
  }

  /** Entry `i` is a hit and no earlier entry is. */
  ghost predicate IsFirstHit(cmp: Comparator, cand: string, docs: seq<Doc>, i: int)
  {
    0 <= i < |docs| && Hit(cmp, cand, docs[i]) &&
    forall j :: 0 <= j < i ==> !Hit(cmp, cand, docs[j])
  }

  /** The hashes of the entries that have content, in order: the ones the loop scores. */
  function WithContent(docs: seq<Doc>): (hashes: seq<Hash>)
    ensures |hashes| <= |docs|
    ensures forall h :: h in hashes ==> exists d :: d in docs && d.text != "" && d.hash == h
  {
    if docs == [] then []
    else
      var last := docs[|docs| - 1];
      WithContent(docs[..|docs| - 1]) + (if last.text != "" then [last.hash] else [])
  }

  /** Extending the prefix by one entry adds that entry's hash exactly when it has content. */
  lemma WithContentExtend(docs: seq<Doc>, i: int)
    requires 0 <= i < |docs|
    ensures WithContent(docs[..i + 1]) ==
      WithContent(docs[..i]) + (if docs[i].text != "" then [docs[i].hash] else [])
  {
    assert docs[..i + 1][..i] == docs[..i];
  }

  /** One step of the scan from entry `i`: stop at a hit, otherwise go on with the rest. */
  lemma ScanStep(cmp: Comparator, cand: string, docs: seq<Doc>, i: int)
    requires 0 <= i < |docs|
    ensures Scan(cmp, cand, docs[i..]) ==
      if Hit(cmp, cand, docs[i]) then Copied(docs[i].hash, CompareDocumentsLocal(cmp, cand, docs[i].text))
      else Scan(cmp, cand, docs[i + 1..])
  {
    assert docs[i..][1..] == docs[i + 1..];
  }

  /** The `for…of` loop of isCopiedWork as a recursive function: the first hit, if any. */
  function Scan(cmp: Comparator, cand: string, docs: seq<Doc>): (v: Verdict)
    ensures v.Copied? ==> Threshold <= v.similarity <= 100.0
    ensures v.Copied? ==> exists d :: d in docs && d.text != "" && d.hash == v.matchHash
  {
    if docs == [] then NotCopied
    else if docs[0].text == "" then Scan(cmp, cand, docs[1..])
    else
      var similarity := CompareDocumentsLocal(cmp, cand, docs[0].text);
      if similarity >= Threshold then Copied(docs[0].hash, similarity)
      else Scan(cmp, cand, docs[1..])
  }

  /** isCopiedWork as a function of the gateway's answers. */
  function Gate(g: Gateway, cmp: Comparator, newHash: Hash, existingHashes: seq<Hash>): (v: Verdict)
    ensures FetchText(g, newHash) == "" || existingHashes == [] ==> v == NotCopied
    ensures v.Copied? ==> Threshold <= v.similarity <= 100.0 && v.matchHash in existingHashes
  {
    var newDoc := FetchText(g, newHash);
    if newDoc == "" then NotCopied else Scan(cmp, newDoc, FetchAll(g, existingHashes))
  }

  /** Not copied exactly when no entry is a hit. */
  lemma {:induction false} ScanNotCopiedIff(cmp: Comparator, cand: string, docs: seq<Doc>)
    ensures Scan(cmp, cand, docs).NotCopied? <==> forall i :: 0 <= i < |docs| ==> !Hit(cmp, cand, docs[i])
  {
    if docs != [] {
      ScanNotCopiedIff(cmp, cand, docs[1..]);
      assert forall i :: 1 <= i < |docs| ==> docs[i] == docs[1..][i - 1];
    }
  }

  /** The first hit is the one reported, with its own score. */
  lemma {:induction false} ScanReportsFirstHit(cmp: Comparator, cand: string, docs: seq<Doc>, i: int)
    requires IsFirstHit(cmp, cand, docs, i)
    ensures Scan(cmp, cand, docs) == Copied(docs[i].hash, CompareDocumentsLocal(cmp, cand, docs[i].text))
  {
    if i > 0 {
      assert !Hit(cmp, cand, docs[0]);
      assert IsFirstHit(cmp, cand, docs[1..], i - 1) by {
        forall j | 0 <= j < i - 1 ensures !Hit(cmp, cand, docs[1..][j]) {
          assert docs[1..][j] == docs[j + 1];
        }
      }
      ScanReportsFirstHit(cmp, cand, docs[1..], i - 1);
    }
  }

  /** A copied verdict always names the first hit and carries its score. */
  lemma {:induction false} ScanCopiedIsFirstHit(cmp: Comparator, cand: string, docs: seq<Doc>)
    requires Scan(cmp, cand, docs).Copied?
    ensures exists i :: (IsFirstHit(cmp, cand, docs, i) &&
      Scan(cmp, cand, docs) == Copied(docs[i].hash, CompareDocumentsLocal(cmp, cand, docs[i].text)))
  {
    if Hit(cmp, cand, docs[0]) {
      assert IsFirstHit(cmp, cand, docs, 0);
    } else {
      ScanCopiedIsFirstHit(cmp, cand, docs[1..]);
      var k :| IsFirstHit(cmp, cand, docs[1..], k) &&
        Scan(cmp, cand, docs[1..]) == Copied(docs[1..][k].hash, CompareDocumentsLocal(cmp, cand, docs[1..][k].text));
      assert IsFirstHit(cmp, cand, docs, k + 1) by {
        forall j | 0 < j < k + 1 ensures !Hit(cmp, cand, docs[j]) {
          assert docs[j] == docs[1..][j - 1];
        }
      }
    }
  }

  /**
   * The gate's whole contract: an empty or unfetchable candidate and an empty list are
   * never copied; otherwise the verdict is "not copied" exactly when no existing document
   * with content scores at least 80, and "copied" names the first such document in
   * `existingHashes` order with its score.
   */
  lemma GateNotCopiedIff(g: Gateway, cmp: Comparator, newHash: Hash, existingHashes: seq<Hash>)
    ensures FetchText(g, newHash) == "" ==> Gate(g, cmp, newHash, existingHashes) == NotCopied
    ensures existingHashes == [] ==> Gate(g, cmp, newHash, existingHashes) == NotCopied
    ensures Gate(g, cmp, newHash, existingHashes).NotCopied? <==>
      FetchText(g, newHash) == "" ||
      forall i :: 0 <= i < |existingHashes| ==>
        !Hit(cmp, FetchText(g, newHash), Doc(existingHashes[i], FetchText(g, existingHashes[i])))
  {
    var docs := FetchAll(g, existingHashes);
    ScanNotCopiedIff(cmp, FetchText(g, newHash), docs);
  }

  /** A copied verdict: the match is the first hit of `existingHashes`, and an element of it. */
  lemma GateCopiedIsFirstHit(g: Gateway, cmp: Comparator, newHash: Hash, existingHashes: seq<Hash>)
    requires Gate(g, cmp, newHash, existingHashes).Copied?
    ensures Gate(g, cmp, newHash, existingHashes).matchHash in existingHashes
    ensures exists i :: (IsFirstHit(cmp, FetchText(g, newHash), FetchAll(g, existingHashes), i) &&
      Gate(g, cmp, newHash, existingHashes) ==
        Copied(existingHashes[i], CompareDocumentsLocal(cmp, FetchText(g, newHash), FetchText(g, existingHashes[i]))))
  {
    var cand, docs := FetchText(g, newHash), FetchAll(g, existingHashes);
    ScanCopiedIsFirstHit(cmp, cand, docs);
    var i :| IsFirstHit(cmp, cand, docs, i) &&
      Scan(cmp, cand, docs) == Copied(docs[i].hash, CompareDocumentsLocal(cmp, cand, docs[i].text));
    assert existingHashes[i] in existingHashes;
  }

  /** Conversely, the first hit of `existingHashes` is what the gate reports. */
  lemma GateReportsFirstHit(g: Gateway, cmp: Comparator, newHash: Hash, existingHashes: seq<Hash>, i: int)
    requires FetchText(g, newHash) != ""
    requires IsFirstHit(cmp, FetchText(g, newHash), FetchAll(g, existingHashes), i)
    ensures Gate(g, cmp, newHash, existingHashes) ==
      Copied(existingHashes[i], CompareDocumentsLocal(cmp, FetchText(g, newHash), FetchText(g, existingHashes[i])))
  {
    ScanReportsFirstHit(cmp, FetchText(g, newHash), FetchAll(g, existingHashes), i);
  }

  /**
   * A failed fetch counts exactly as an empty document: replacing the gateway's error for
   * any hash by an empty body leaves the verdict unchanged.
   */
  lemma FailureIsNoContent(g: Gateway, cmp: Comparator, newHash: Hash, existingHashes: seq<Hash>,
                           h: Hash, message: string)
    ensures Gate(g[h := Failure(message)], cmp, newHash, existingHashes) ==
            Gate(g[h := Body("")], cmp, newHash, existingHashes)
  {
    var failed, empty := g[h := Failure(message)], g[h := Body("")];
    assert forall x :: FetchText(failed, x) == FetchText(empty, x);
    assert FetchAll(failed, existingHashes) == FetchAll(empty, existingHashes);
  }

  /**
   * isCopiedWork. `scored` records, in order, the hashes the loop compared against:
   * none for an empty candidate, otherwise exactly the entries with content up to and
   * including the first hit (all of them when there is none).
   */
  method IsCopiedWork(g: Gateway, cmp: Comparator, newHash: Hash, existingHashes: seq<Hash>)
    returns (v: Verdict, ghost scored: seq<Hash>)
    ensures v == Gate(g, cmp, newHash, existingHashes)
    ensures FetchText(g, newHash) == "" ==> scored == []
    ensures FetchText(g, newHash) != "" && v.NotCopied? ==> scored == WithContent(FetchAll(g, existingHashes))
    ensures v.Copied? ==> exists i :: (IsFirstHit(cmp, FetchText(g, newHash), FetchAll(g, existingHashes), i) &&
      scored == WithContent(FetchAll(g, existingHashes)[..i + 1]))
  {
    var newDoc := FetchText(g, newHash);
    if newDoc == "" {
      return NotCopied, [];
    }
    var existingDocs := FetchAll(g, existingHashes);
    scored := [];
    var i := 0;
    while i < |existingDocs|
      invariant 0 <= i <= |existingDocs|
      invariant Scan(cmp, newDoc, existingDocs) == Scan(cmp, newDoc, existingDocs[i..])
      invariant forall j :: 0 <= j < i ==> !Hit(cmp, newDoc, existingDocs[j])
      invariant scored == WithContent(existingDocs[..i])
    {
      var d := existingDocs[i];
      WithContentExtend(existingDocs, i);
      ScanStep(cmp, newDoc, existingDocs, i);
      if d.text != "" {
        var similarity := CompareDocumentsLocal(cmp, newDoc, d.text);
        scored := scored + [d.hash];
        if similarity >= Threshold {
          assert IsFirstHit(cmp, newDoc, existingDocs, i);
          return Copied(d.hash, similarity), scored;
        }
      }
      i := i + 1;
    }
    assert existingDocs[..i] == existingDocs;
    return NotCopied, scored;
  }
}
