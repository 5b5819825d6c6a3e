/**
 * The amount ledger the history screen talks to (AmountDao): a sequence of
 * entries, each with a row id the ledger assigns and never reuses.  Only its
 * behaviour as the history screen relies on it is modelled: save appends an
 * entry, delete drops the entry with a row id, removeAll drops every entry
 * of a category, findAll lists the entries of a category in ledger order.
 */
module Ledger {
  import opened Decimals

  datatype Entry = Entry(rowId: int, category: string, amount: Decimal, time: int)

  /** The calls the screens issue against the ledger, in the order issued. */
  datatype Command =
    | SaveCall(category: string, amount: Decimal, time: int)
    | DeleteCall(rowId: int)
    | RemoveAllCall(category: string)

  /** No row id occurs twice. */
  predicate UniqueRowIds(entries: seq<Entry>) {
    entries == [] ||
    ((forall e :: e in entries[1..] ==> e.rowId != entries[0].rowId) && UniqueRowIds(entries[1..]))
  }

  /** findAll(category): the entries of one category, in ledger order. */
  function FindAll(entries: seq<Entry>, category: string): (r: seq<Entry>)
    ensures forall e :: e in r <==> e in entries && e.category == category
    ensures |r| <= |entries|
  {
    if entries == [] then []
    else if entries[0].category == category then [entries[0]] + FindAll(entries[1..], category)
    else FindAll(entries[1..], category)
  }

  /** The ledger after delete(rowId). */
  function WithoutRow(entries: seq<Entry>, rowId: int): (r: seq<Entry>)
    ensures forall e :: e in r <==> e in entries && e.rowId != rowId
    ensures |r| <= |entries|
  {
    if entries == [] then []
    else if entries[0].rowId == rowId then WithoutRow(entries[1..], rowId)
    else [entries[0]] + WithoutRow(entries[1..], rowId)
  }

  /** The ledger after removeAll(category). */
  function WithoutCategory(entries: seq<Entry>, category: string): (r: seq<Entry>)
    ensures forall e :: e in r <==> e in entries && e.category != category
  {
    if entries == [] then []
    else if entries[0].category == category then WithoutCategory(entries[1..], category)
    else [entries[0]] + WithoutCategory(entries[1..], category)
  }

  function RowIds(entries: seq<Entry>): (r: seq<int>)
    ensures |r| == |entries| && forall i :: 0 <= i < |entries| ==> r[i] == entries[i].rowId
  {
    seq(|entries|, i requires 0 <= i < |entries| => entries[i].rowId)
  }

  // ---------------------------------------------------------------------
  // Row ids stay unique.
  // ---------------------------------------------------------------------

  lemma {:induction false} UniqueRowIdsAt(entries: seq<Entry>, i: nat, j: nat)
    requires UniqueRowIds(entries)
    requires i < j < |entries|
    ensures entries[i].rowId != entries[j].rowId
  {
    if i == 0 {
      assert entries[j] in entries[1..];
    } else {
      UniqueRowIdsAt(entries[1..], i - 1, j - 1);
    }
  }

  lemma {:induction false} UniqueRowIdsAppend(entries: seq<Entry>, e: Entry)
    requires UniqueRowIds(entries)
    requires forall x :: x in entries ==> x.rowId != e.rowId
    ensures UniqueRowIds(entries + [e])
  {
    if entries != [] {
      assert (entries + [e])[1..] == entries[1..] + [e];
      UniqueRowIdsAppend(entries[1..], e);
    }
  }

  lemma {:induction false} UniqueRowIdsWithoutRow(entries: seq<Entry>, rowId: int)
    requires UniqueRowIds(entries)
    ensures UniqueRowIds(WithoutRow(entries, rowId))
  {
    if entries != [] {
      UniqueRowIdsWithoutRow(entries[1..], rowId);
    }
  }

  lemma {:induction false} UniqueRowIdsWithoutCategory(entries: seq<Entry>, category: string)
    requires UniqueRowIds(entries)
    ensures UniqueRowIds(WithoutCategory(entries, category))
  {
    if entries != [] {
      UniqueRowIdsWithoutCategory(entries[1..], category);
    }
  }

  lemma {:induction false} UniqueRowIdsFindAll(entries: seq<Entry>, category: string)
    requires UniqueRowIds(entries)
    ensures UniqueRowIds(FindAll(entries, category))
  {
    if entries != [] {
      UniqueRowIdsFindAll(entries[1..], category);
    }
  }

  // ---------------------------------------------------------------------
  // What findAll lists after each command.
  // ---------------------------------------------------------------------

  /** After save, findAll lists the new entry last for its category and nothing changes for the others. */
  lemma {:induction false} FindAllAfterSave(entries: seq<Entry>, e: Entry, category: string)
    ensures FindAll(entries + [e], category)
         == FindAll(entries, category) + (if e.category == category then [e] else [])
  {
    if entries != [] {
      assert (entries + [e])[1..] == entries[1..] + [e];
      FindAllAfterSave(entries[1..], e, category);
    }
  }

  /** After removeAll(c), findAll(c) is empty and every other category lists what it did before. */
  lemma {:induction false} FindAllAfterRemoveAll(entries: seq<Entry>, removed: string, category: string)
    ensures FindAll(WithoutCategory(entries, removed), category)
         == if category == removed then [] else FindAll(entries, category)
  {
    if entries != [] {
      FindAllAfterRemoveAll(entries[1..], removed, category);
    }
  }

  /** After delete(rowId), findAll lists what it did before, less that row. */
  lemma {:induction false} FindAllAfterDelete(entries: seq<Entry>, rowId: int, category: string)
    ensures FindAll(WithoutRow(entries, rowId), category) == WithoutRow(FindAll(entries, category), rowId)
  {
    if entries != [] {
      FindAllAfterDelete(entries[1..], rowId, category);
    }
  }

  /** With unique row ids, delete of a present row removes exactly one entry. */
  lemma {:induction false} DeleteRemovesOne(entries: seq<Entry>, rowId: int)
    requires UniqueRowIds(entries)
    ensures |WithoutRow(entries, rowId)| == if rowId in RowIds(entries) then |entries| - 1 else |entries|
  {
    if entries != [] {
      DeleteRemovesOne(entries[1..], rowId);
      assert RowIds(entries) == [entries[0].rowId] + RowIds(entries[1..]);
      if entries[0].rowId == rowId {
        assert WithoutRow(entries[1..], rowId) == entries[1..] by {
          NoSuchRow(entries[1..], rowId);
        }
      }
    }
  }

  /** Deleting a row id nobody has changes nothing. */
  lemma {:induction false} NoSuchRow(entries: seq<Entry>, rowId: int)
    requires forall e :: e in entries ==> e.rowId != rowId
    ensures WithoutRow(entries, rowId) == entries
  {
    if entries != [] {
      NoSuchRow(entries[1..], rowId);
    }
  }

  /**
   * The ledger object.  Row ids come from a counter, so every saved entry
   * gets an id no current entry has.
   */
  class AmountDao {
    var entries: seq<Entry>
    var nextRowId: int
    var issued: seq<Command>

    ghost predicate Valid()
      reads this
    {
      && UniqueRowIds(entries)
      && forall e :: e in entries ==> e.rowId < nextRowId
    }

    constructor ()
      ensures Valid() && entries == [] && issued == []
    {
      entries := [];
      nextRowId := 1;
      issued := [];
    }

    /** save(category, amount, time): appends one entry under a fresh row id. */
    method Save(category: string, amount: Decimal, time: int) returns (rowId: int)
      requires Valid()
      modifies this
      ensures Valid()
      ensures rowId == old(nextRowId) && nextRowId > rowId
      ensures forall e :: e in old(entries) ==> e.rowId != rowId
      ensures entries == old(entries) + [Entry(rowId, category, amount, time)]
      ensures issued == old(issued) + [SaveCall(category, amount, time)]
    {
      rowId := nextRowId;
      UniqueRowIdsAppend(entries, Entry(rowId, category, amount, time));
      entries := entries + [Entry(rowId, category, amount, time)];
      nextRowId := nextRowId + 1;
      issued := issued + [SaveCall(category, amount, time)];
    }

    /** delete(rowId): drops the entry with that row id, if any. */
    method Delete(rowId: int)
      requires Valid()
      modifies this
      ensures Valid() && nextRowId == old(nextRowId)
      ensures entries == WithoutRow(old(entries), rowId)
      ensures issued == old(issued) + [DeleteCall(rowId)]
    {
      UniqueRowIdsWithoutRow(entries, rowId);
      entries := WithoutRow(entries, rowId);
      issued := issued + [DeleteCall(rowId)];
    }

    /** removeAll(category): drops every entry of the category. */
    method RemoveAll(category: string)
      requires Valid()
      modifies this
      ensures Valid() && nextRowId == old(nextRowId)
      ensures entries == WithoutCategory(old(entries), category)
      ensures issued == old(issued) + [RemoveAllCall(category)]
    {
      UniqueRowIdsWithoutCategory(entries, category);
      entries := WithoutCategory(entries, category);
      issued := issued + [RemoveAllCall(category)];
    }
  }
}
