/**
 * The history screen of one category (HistoryActivity.java): it accepts a
 * new entry returned by the add-entry screen, deletes one entry after a
 * confirmed long click, and clears the category after a confirmed
 * "delete all", re-seeding it with a zero entry.  All of it talks to the
 * ledger (AmountDao).
 */
module HistoryScreen {
  import opened Wrappers
  import opened Decimals
  import opened DecimalSyntax
  import opened Ledger

  /** The extras of the intent the add-entry screen returns. */
  datatype ResultData = ResultData(amount: Option<string>, timestamp: Option<int>)

  /** What onActivityResult does with a returned result. */
  datatype Outcome =
    | Ignored
    | InvalidValue(text: string)             // the "Value is invalid" toast, nothing saved
    | Accepted(amount: Decimal, timestamp: int)

  /**
   * The decision onActivityResult takes.  `expectedRequest` and
   * `expectedResult` are the add-entry screen's REQUEST_CODE and RESULT_CODE;
   * `now` is the clock reading used when the result carries no timestamp.
   */
  function DecideResult(requestCode: int, resultCode: int, data: Option<ResultData>,
                        expectedRequest: int, expectedResult: int, now: int): (r: Outcome)
    ensures data.None? ==> r == Ignored
    ensures requestCode != expectedRequest || resultCode != expectedResult ==> r == Ignored
    ensures data.Some? && (data.value.amount.None? || data.value.amount.value == []) ==> r == Ignored
    ensures r.InvalidValue? <==>
      && data.Some? && requestCode == expectedRequest && resultCode == expectedResult
      && data.value.amount.Some? && data.value.amount.value != []
      && ParseDecimal(data.value.amount.value).None?
    ensures r.InvalidValue? ==> r.text == data.value.amount.value
    ensures r.Accepted? <==>
      && data.Some? && requestCode == expectedRequest && resultCode == expectedResult
      && data.value.amount.Some? && data.value.amount.value != []
      && ParseDecimal(data.value.amount.value).Some?
      && Value(ParseDecimal(data.value.amount.value).value) != 0.0
    ensures r.Accepted? ==>
      && Some(r.amount) == ParseDecimal(data.value.amount.value)
      && r.timestamp == data.value.timestamp.GetOr(now)
  {
    if data.None? then Ignored
    else if requestCode != expectedRequest || resultCode != expectedResult then Ignored
    else
      var amountString := data.value.amount;
      var timestamp := data.value.timestamp.GetOr(now);
      if amountString.None? || |amountString.value| == 0 then Ignored
      else match ParseDecimal(amountString.value)
        case None => InvalidValue(amountString.value)
        case Some(amount) =>
          IsZeroIffValueZero(amount);
          if IsZero(amount) then Ignored else Accepted(amount, timestamp)
  }

  /**
   * An amount whose digits are all zeros ("0", "0.00", "-0e5") is never
   * saved, whatever timestamp it comes with.
   */
  lemma ZeroIsNotSaved(lit: Literal, requestCode: int, resultCode: int, time: Option<int>, now: int)
    requires WellFormed(lit)
    requires forall i :: 0 <= i < |lit.intDigits + lit.fracDigits| ==> (lit.intDigits + lit.fracDigits)[i] == '0'
    ensures !DecideResult(requestCode, resultCode, Some(ResultData(Some(Render(lit)), time)),
                          requestCode, resultCode, now).Accepted?
  {
    ParseRender(lit);
    ZerosValue(lit.intDigits + lit.fracDigits);
    var r := Evaluate(lit);
    if r.Some? {
      assert IsZero(r.value);
      IsZeroIffValueZero(r.value);
    }
  }

  /** Returning "0" or "0.00" from the add-entry screen is ignored: no save, no notice. */
  lemma ZeroStringsAreIgnored(text: string, requestCode: int, resultCode: int, time: Option<int>, now: int)
    requires text == "0" || text == "0.00"
    ensures DecideResult(requestCode, resultCode, Some(ResultData(Some(text), time)),
                         requestCode, resultCode, now) == Ignored
  {
    var lit := ZeroText(text);
    ZeroIsNotSaved(lit, requestCode, resultCode, time, now);
    ParseRender(lit);
  }

  /** "0" and "0.00" are the renderings of two zero literals that evaluate. */
  lemma ZeroText(text: string) returns (lit: Literal)
    requires text == "0" || text == "0.00"
    ensures WellFormed(lit) && Render(lit) == text && Evaluate(lit).Some?
    ensures forall i :: 0 <= i < |lit.intDigits + lit.fracDigits| ==> (lit.intDigits + lit.fracDigits)[i] == '0'
  {
    var zero := ['0'];
    lit := Literal(Unsigned, zero, text != zero, if text == zero then [] else ['0', '0'], None);
    PlainLiteral(lit);
    assert lit.intDigits + lit.fracDigits == if text == zero then zero else ['0', '0', '0'];
  }

  /**
   * The long-click guard: a long click on list position `position` offers
   * to delete the row with id rowIds[position], except at the last position.
   */
  function LongClickTarget(position: int, rowIds: seq<int>): (r: Option<int>)
    requires 0 <= position < |rowIds|
    ensures r.Some? <==> position < |rowIds| - 1
    ensures r.Some? ==> r.value == rowIds[position]
  {
    if position < |rowIds| - 1 then Some(rowIds[position]) else None
  }

  /**
   * Whatever row a confirmed long-click deletion removes from a category's
   * list, the row shown last is still in the ledger afterwards.
   */
  lemma LongClickSparesLastRow(entries: seq<Entry>, category: string, position: int)
    requires UniqueRowIds(entries)
    requires 0 <= position < |FindAll(entries, category)|
    ensures var rows := FindAll(entries, category);
      LongClickTarget(position, RowIds(rows)).Some? ==>
        rows[|rows| - 1] in WithoutRow(entries, LongClickTarget(position, RowIds(rows)).value)
  {
    var rows := FindAll(entries, category);
    var ids := RowIds(rows);
    if position < |rows| - 1 {
      var last, rowId := rows[|rows| - 1], rows[position].rowId;
      assert LongClickTarget(position, ids) == Some(rowId) by {
        assert ids[position] == rowId;
      }
      LastRowIsKept(entries, category, position);
      assert last in WithoutRow(entries, rowId);
    } else {
      assert LongClickTarget(position, ids).None?;
    }
  }

  /** The last listed row is in the ledger and has another row id than any earlier row. */
  lemma LastRowIsKept(entries: seq<Entry>, category: string, position: int)
    requires UniqueRowIds(entries)
    requires 0 <= position < |FindAll(entries, category)| - 1
    ensures var rows := FindAll(entries, category);
      rows[|rows| - 1] in entries && rows[|rows| - 1].rowId != rows[position].rowId
  {
    var rows := FindAll(entries, category);
    UniqueRowIdsFindAll(entries, category);
    UniqueRowIdsAt(rows, position, |rows| - 1);
    assert rows[|rows| - 1] in rows;
  }

  /** The screen, bound to one category and to the ledger it saves to. */
  class HistoryActivity {
    const category: string
    const dao: AmountDao

    /** onCreate: the category from the starting intent; the ledger is handed in. */
    constructor (category: string, dao: AmountDao)
      ensures this.category == category && this.dao == dao
    {
      this.category := category;
      this.dao := dao;
    }

    /**
     * onActivityResult: saves the returned amount under the returned (or
     * current) time when DecideResult accepts it; `notice` is the "Value is
     * invalid" toast.
     */
    method OnActivityResult(requestCode: int, resultCode: int, data: Option<ResultData>,
                            expectedRequest: int, expectedResult: int, now: int)
      returns (notice: Option<string>)
      requires dao.Valid()
      modifies dao
      ensures dao.Valid()
      ensures var o := DecideResult(requestCode, resultCode, data, expectedRequest, expectedResult, now);
        && (o.Accepted? ==>
              && dao.entries == old(dao.entries) + [Entry(old(dao.nextRowId), category, o.amount, o.timestamp)]
              && dao.issued == old(dao.issued) + [SaveCall(category, o.amount, o.timestamp)])
        && (!o.Accepted? ==>
              dao.entries == old(dao.entries) && dao.issued == old(dao.issued) && dao.nextRowId == old(dao.nextRowId))
        && notice == (if o.InvalidValue? then Some(o.text) else None)
    {
      notice := None;
      if data.None? {
        return;
      }
      if requestCode != expectedRequest || resultCode != expectedResult {
        return;
      }
      var amountString := data.value.amount;
      var timestamp := data.value.timestamp.GetOr(now);
      if amountString.None? || |amountString.value| == 0 {
        return;
      }
      var parsed := ParseDecimal(amountString.value);
      if parsed.None? {
        notice := Some(amountString.value);
        return;
      }
      var amount := parsed.value;
      if IsZero(amount) {
        return;
      }
      var _ := dao.Save(category, amount, timestamp);
    }

    /**
     * doRemoveAll: removeAll(category), then save(category, 0) at the
     * current time, so the category is left with one zero entry.
     */
    method DoRemoveAll(now: int)
      requires dao.Valid()
      modifies dao
      ensures dao.Valid()
      ensures dao.issued == old(dao.issued) + [RemoveAllCall(category), SaveCall(category, Zero, now)]
      ensures dao.entries == WithoutCategory(old(dao.entries), category) + [Entry(old(dao.nextRowId), category, Zero, now)]
      ensures FindAll(dao.entries, category) == [Entry(old(dao.nextRowId), category, Zero, now)]
      ensures forall other :: other != category ==> FindAll(dao.entries, other) == FindAll(old(dao.entries), other)
    {
      dao.RemoveAll(category);
      var rowId := dao.Save(category, Zero, now);
      var cleared := WithoutCategory(old(dao.entries), category);
      var seed := Entry(rowId, category, Zero, now);
      FindAllAfterSave(cleared, seed, category);
      FindAllAfterRemoveAll(old(dao.entries), category, category);
      forall other | other != category
        ensures FindAll(dao.entries, other) == FindAll(old(dao.entries), other)
      {
        FindAllAfterSave(cleared, seed, other);
        FindAllAfterRemoveAll(old(dao.entries), category, other);
      }
    }

    /** doRemove: delete(rowId); every other entry stays. */
    method DoRemove(rowId: int)
      requires dao.Valid()
      modifies dao
      ensures dao.Valid()
      ensures dao.issued == old(dao.issued) + [DeleteCall(rowId)]
      ensures dao.entries == WithoutRow(old(dao.entries), rowId)
      ensures forall e :: e in dao.entries <==> e in old(dao.entries) && e.rowId != rowId
      ensures |dao.entries| == if rowId in RowIds(old(dao.entries)) then |old(dao.entries)| - 1 else |old(dao.entries)|
      ensures forall c :: FindAll(dao.entries, c) == WithoutRow(FindAll(old(dao.entries), c), rowId)
    {
      DeleteRemovesOne(dao.entries, rowId);
      dao.Delete(rowId);
      forall c ensures FindAll(dao.entries, c) == WithoutRow(FindAll(old(dao.entries), c), rowId) {
        FindAllAfterDelete(old(dao.entries), rowId, c);
      }
    }
  }
}
