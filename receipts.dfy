/** The request models: an Item and a Receipt as submitted, and the field formats
    that request validation enforces before any scoring takes place. Each pattern
    is written out by hand over ASCII; no regular-expression engine is modelled. */
module Receipts {
  import opened Text

  datatype Item = Item(shortDescription: string, price: string)

  datatype Receipt = Receipt(
    retailer: string,
    purchaseDate: string,
    purchaseTime: string,
    items: seq<Item>,
    total: string)

  /** ^[\w\s\-]+$ */
  predicate IsDescription(s: string) {
    |s| >= 1 && forall i :: 0 <= i < |s| ==> IsWordChar(s[i]) || IsPatternSpace(s[i]) || s[i] == '-'
  }

  /** ^[\w\s\-&]+$ */
  predicate IsRetailer(s: string) {
    |s| >= 1 && forall i :: 0 <= i < |s| ==>
      IsWordChar(s[i]) || IsPatternSpace(s[i]) || s[i] == '-' || s[i] == '&'
  }

  /** ^\d+\.\d{2}$ : one or more digits, a point, exactly two digits. */
  predicate IsMoney(s: string) {
    |s| >= 4 && AllDigits(s[..|s| - 3]) && s[|s| - 3] == '.' && AllDigits(s[|s| - 2..])
  }

  /** ^\d{4}-\d{2}-\d{2}$ */
  predicate IsDate(s: string) {
    |s| == 10 && AllDigits(s[..4]) && s[4] == '-' && AllDigits(s[5..7]) && s[7] == '-' && AllDigits(s[8..])
  }

  /** ^\d{2}:\d{2}$ */
  predicate IsTime(s: string) {
    |s| == 5 && AllDigits(s[..2]) && s[2] == ':' && AllDigits(s[3..])
  }

  /** IsTime, position by position. */
  lemma TimeByPosition(t: string)
    requires |t| == 5 && IsDigit(t[0]) && IsDigit(t[1]) && t[2] == ':' && IsDigit(t[3]) && IsDigit(t[4])
    ensures IsTime(t)
  {
    assert t[..2] == [t[0], t[1]];
    assert t[3..] == [t[3], t[4]];
  }

  predicate IsItem(item: Item) {
    IsDescription(item.shortDescription) && IsMoney(item.price)
  }

  predicate AllItems(items: seq<Item>) {
    forall i :: 0 <= i < |items| ==> IsItem(items[i])
  }

  /** A receipt that passes request validation. */
  predicate IsReceipt(r: Receipt) {
    IsRetailer(r.retailer) && IsDate(r.purchaseDate) && IsTime(r.purchaseTime)
    && AllItems(r.items) && IsMoney(r.total)
  }

  /** The path parameter pattern of the points lookup:
      ^[0-9a-fA-F]{8}-[0-9a-fA-F]{4}-[0-9a-fA-F]{4}-[0-9a-fA-F]{4}-[0-9a-fA-F]{12}$ */
  predicate IsReceiptId(s: string) {
    |s| == 36
    && AllHexDigits(s[..8]) && s[8] == '-'
    && AllHexDigits(s[9..13]) && s[13] == '-'
    && AllHexDigits(s[14..18]) && s[18] == '-'
    && AllHexDigits(s[19..23]) && s[23] == '-'
    && AllHexDigits(s[24..])
  }

  /** The hex groups of an identifier, lengths 8-4-4-4-12. */
  predicate IsIdGroups(g: seq<string>) {
    |g| == 5 && |g[0]| == 8 && |g[1]| == 4 && |g[2]| == 4 && |g[3]| == 4 && |g[4]| == 12
    && forall k :: 0 <= k < 5 ==> AllHexDigits(g[k])
  }

  /** An identifier is well formed exactly when splitting it at '-' gives five
      groups of hex digits of lengths 8, 4, 4, 4 and 12. */
  lemma ReceiptIdGroups(s: string)
    ensures IsReceiptId(s) <==> IsIdGroups(Split(s, '-'))
  {
    if IsReceiptId(s) {
      IdSplitsIntoGroups(s);
    }
    if IsIdGroups(Split(s, '-')) {
      GroupsJoinIntoId(Split(s, '-'), s);
    }
  }

  /** A well-formed identifier splits at '-' into its five hex groups. */
  lemma IdSplitsIntoGroups(s: string)
    requires IsReceiptId(s)
    ensures IsIdGroups(Split(s, '-'))
  {
    var g := [s[..8], s[9..13], s[14..18], s[19..23], s[24..]];
    assert Join(g[4..], '-') == s[24..];
    assert Join(g[3..], '-') == s[19..];
    assert Join(g[2..], '-') == s[14..];
    assert Join(g[1..], '-') == s[9..];
    assert Join(g, '-') == s;
    forall k | 0 <= k < 5 ensures '-' !in g[k] {
      assert forall c :: c in g[k] ==> IsHexDigit(c);
    }
    SplitJoin(g, '-');
  }

  /** Five hex groups of lengths 8-4-4-4-12 joined with '-' form a well-formed identifier. */
  lemma GroupsJoinIntoId(g: seq<string>, s: string)
    requires IsIdGroups(g) && Join(g, '-') == s
    ensures IsReceiptId(s)
  {
    assert g[1..][1..][1..][1..] == [g[4]];
    assert Join(g[3..], '-') == g[3] + "-" + g[4];
    assert Join(g[2..], '-') == g[2] + "-" + Join(g[3..], '-');
    assert Join(g[1..], '-') == g[1] + "-" + Join(g[2..], '-');
    assert s == g[0] + "-" + Join(g[1..], '-');
    assert s[..8] == g[0];
    assert s[9..13] == g[1];
    assert s[14..18] == g[2];
    assert s[19..23] == g[3];
    assert s[24..] == g[4];
  }
}
