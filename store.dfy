/** The in-memory receipt store: the two process-wide dictionaries, one from
    receipt id to the receipt as accepted and one from receipt id to its points,
    with the two request handlers that use them. */
module Store {
  import opened Receipts
  import opened Points

  /** The answer of a points lookup: the stored points, an unknown id (answered
      with status 404), or an id the path pattern refuses (answered by the
      request-validation handler, before the store is consulted). */
  datatype LookupResult = Found(points: int) | NotFound | Rejected

  /** The two dictionaries agree: the same ids, each of the identifier shape, each
      holding a validated receipt and, beside it, that receipt's score. */
  predicate Consistent(receipts: map<string, Receipt>, points: map<string, int>) {
    receipts.Keys == points.Keys
    && forall id :: id in receipts ==>
         IsReceiptId(id) && IsReceipt(receipts[id]) && points[id] == Score(receipts[id])
  }

  /** The answer of a points lookup against the two dictionaries: a malformed id is
      refused before any lookup, an unknown id is not found, and a known id yields
      the points of its receipt. */
  function Answer(receipts: map<string, Receipt>, points: map<string, int>, id: string): (result: LookupResult)
    requires Consistent(receipts, points)
    ensures result == Rejected <==> !IsReceiptId(id)
    ensures result == NotFound <==> IsReceiptId(id) && id !in receipts
    ensures result.Found? <==> IsReceiptId(id) && id in receipts
    ensures result.Found? ==> result.points == points[id] == Score(receipts[id])
  {
    if !IsReceiptId(id) then Rejected
    else if id !in receipts then NotFound
    else Found(points[id])
  }

  /** Recording a fresh id with a validated receipt and its score keeps the dictionaries consistent. */
  lemma InsertKeepsConsistent(receipts: map<string, Receipt>, points: map<string, int>, id: string, r: Receipt)
    requires Consistent(receipts, points)
    requires IsReceipt(r) && IsReceiptId(id) && id !in receipts
    ensures Consistent(receipts[id := r], points[id := Score(r)])
  {
  }

  /** After a fresh id is recorded, looking it up yields its receipt's score. */
  lemma AnswerForInsertedId(receipts: map<string, Receipt>, points: map<string, int>, id: string, r: Receipt)
    requires Consistent(receipts, points)
    requires IsReceipt(r) && IsReceiptId(id) && id !in receipts
    ensures Consistent(receipts[id := r], points[id := Score(r)])
    ensures Answer(receipts[id := r], points[id := Score(r)], id) == Found(Score(r))
  {
    InsertKeepsConsistent(receipts, points, id, r);
  }

  /** After a fresh id is recorded, every other id is answered as before. */
  lemma AnswerForOtherIds(receipts: map<string, Receipt>, points: map<string, int>, id: string, r: Receipt, other: string)
    requires Consistent(receipts, points)
    requires IsReceipt(r) && IsReceiptId(id) && id !in receipts && other != id
    ensures Consistent(receipts[id := r], points[id := Score(r)])
    ensures Answer(receipts[id := r], points[id := Score(r)], other) == Answer(receipts, points, other)
  {
    InsertKeepsConsistent(receipts, points, id, r);
  }

  class ReceiptStore {
    /** receipt_storage */
    var receipts: map<string, Receipt>
    /** receipt_points */
    var points: map<string, int>

    /** The object invariant: the two dictionaries are consistent. */
    ghost predicate Valid()
      reads this
    {
      Consistent(receipts, points)
    }

    /** Both dictionaries start out empty. */
    constructor ()
      ensures Valid()
      ensures receipts == map[] && points == map[]
    {
      receipts := map[];
      points := map[];
    }

    /** get_receipt_points: refuses a malformed id, reports an unknown one, and
        otherwise yields the score of the receipt recorded under it. */
    function Lookup(id: string): (result: LookupResult)
      reads this
      requires Valid()
      ensures result == Rejected <==> !IsReceiptId(id)
      ensures result == NotFound <==> IsReceiptId(id) && id !in receipts
      ensures result.Found? <==> IsReceiptId(id) && id in receipts
      ensures result.Found? ==> result.points == Score(receipts[id])
    {
      Answer(receipts, points, id)
    }

    /** process_receipt: records a validated receipt under a fresh id together with
        its computed points and returns the id. The id stands for the result of
        uuid4(), which always has the identifier shape. */
    method Process(id: string, r: Receipt) returns (receiptId: string)
      requires Valid()
      requires IsReceipt(r) && IsReceiptId(id) && id !in receipts
      modifies this
      ensures Valid()
      ensures receiptId == id
      ensures receipts == old(receipts)[id := r]
      ensures points == old(points)[id := Score(r)]
    {
      var p := CalculatePoints(r);
      InsertKeepsConsistent(receipts, points, id, r);
      receipts := receipts[id := r];
      points := points[id := p];
      receiptId := id;
    }
  }
}
