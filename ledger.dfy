/** A month's list of transactions and the list operations the tracker performs on it:
    looking an entry up by id (Array.prototype.find), rewriting the entries with a given
    id (the map in submitTx's edit branch) and dropping them (the filter in deleteTx). */
module Ledger {
  import opened Wrappers
  import Text

  datatype TxKind = Expense | Income

  /** One recorded movement. Amounts are whole guaraníes, so they are integers. */
  datatype Tx = Tx(
    id: string,
    kind: TxKind,
    amount: int,
    date: string,
    description: string,
    category: string)

  /** The values the form contributes to a transaction: everything except its id. */
  datatype Entry = Entry(
    kind: TxKind,
    amount: int,
    date: string,
    description: string,
    category: string)

  /** A new transaction built from the form. The description is stored trimmed. */
  function NewTx(id: string, e: Entry): (t: Tx)
    ensures t.id == id && t.kind == e.kind && t.amount == e.amount && t.date == e.date
    ensures t.description == Text.Trim(e.description) && t.category == e.category
  {
    Tx(id, e.kind, e.amount, e.date, Text.Trim(e.description), e.category)
  }

  /** An existing transaction overwritten by the form: `{ ...t, fields }`, so the id is kept. */
  function Overwrite(t: Tx, e: Entry): (u: Tx)
    ensures u == NewTx(t.id, e)
  {
    t.(kind := e.kind, amount := e.amount, date := e.date,
       description := Text.Trim(e.description), category := e.category)
  }

  predicate HasId(txs: seq<Tx>, id: string) {
    exists i :: 0 <= i < |txs| && txs[i].id == id
  }

  /** No two entries share an id (what fresh UUIDs give). */
  predicate IdsDistinct(txs: seq<Tx>) {
    forall i, j :: 0 <= i < j < |txs| ==> txs[i].id != txs[j].id
  }

  /** A transaction that passed submitTx's validation: positive amount, non-empty date. */
  predicate Accepted(t: Tx) {
    t.amount > 0 && t.date != ""
  }

  predicate AllAccepted(txs: seq<Tx>) {
    forall i :: 0 <= i < |txs| ==> Accepted(txs[i])
  }

  /** txs.find(x => x.id === id): the first entry with that id, or None when there is none. */
  function Find(txs: seq<Tx>, id: string): (r: Option<Tx>)
    ensures r.None? <==> !HasId(txs, id)
    ensures r.Some? ==> exists i :: 0 <= i < |txs| && txs[i] == r.value && r.value.id == id
                                    && forall j :: 0 <= j < i ==> txs[j].id != id
  {
    if txs == [] then None
    else if txs[0].id == id then Some(txs[0])
    else
      var r := Find(txs[1..], id);
      assert forall i :: 1 <= i < |txs| ==> txs[i] == txs[1..][i - 1];
      assert r.Some? ==> HasId(txs[1..], id);
      r
  }

  /** txs.map(t => t.id === id ? { ...t, fields } : t): every entry with the id is
      overwritten by the form, every other one is kept, in the same position. */
  function ReplaceById(txs: seq<Tx>, id: string, e: Entry): (r: seq<Tx>)
    ensures |r| == |txs|
    ensures forall i :: 0 <= i < |txs| ==>
      r[i] == if txs[i].id == id then Overwrite(txs[i], e) else txs[i]
  {
    if txs == [] then []
    else [if txs[0].id == id then Overwrite(txs[0], e) else txs[0]] + ReplaceById(txs[1..], id, e)
  }

  /** txs.filter(t => t.id !== id): the entries without the id, in their order. */
  function RemoveById(txs: seq<Tx>, id: string): (r: seq<Tx>)
    ensures |r| <= |txs|
    ensures forall t :: t in r <==> t in txs && t.id != id
  {
    if txs == [] then []
    else if txs[0].id == id then RemoveById(txs[1..], id)
    else [txs[0]] + RemoveById(txs[1..], id)
  }

  /** Filtering distributes over concatenation (so it keeps relative order). */
  lemma {:induction false} RemoveByIdAppend(a: seq<Tx>, b: seq<Tx>, id: string)
    ensures RemoveById(a + b, id) == RemoveById(a, id) + RemoveById(b, id)
  {
    if a == [] {
      assert a + b == b;
    } else {
      assert a + b != [] && (a + b)[0] == a[0] && (a + b)[1..] == a[1..] + b;
      RemoveByIdAppend(a[1..], b, id);
      if a[0].id != id {
        assert [a[0]] + (RemoveById(a[1..], id) + RemoveById(b, id))
            == ([a[0]] + RemoveById(a[1..], id)) + RemoveById(b, id);
      }
    }
  }

  /** Deleting an id no entry has leaves the list as it was. */
  lemma {:induction false} RemoveUnknownId(txs: seq<Tx>, id: string)
    requires !HasId(txs, id)
    ensures RemoveById(txs, id) == txs
  {
    if txs != [] {
      var tail := txs[1..];
      assert txs[0].id != id;
      forall i | 0 <= i < |tail| ensures tail[i].id != id {
        assert tail[i] == txs[i + 1];
      }
      RemoveUnknownId(tail, id);
    }
  }

  /** Deleting an id that only entry k carries removes exactly that entry and keeps the
      others in their order. */
  lemma RemoveOnly(pre: seq<Tx>, t: Tx, post: seq<Tx>)
    requires !HasId(pre, t.id) && !HasId(post, t.id)
    ensures RemoveById(pre + [t] + post, t.id) == pre + post
  {
    RemoveByIdAppend(pre + [t], post, t.id);
    RemoveByIdAppend(pre, [t], t.id);
    assert RemoveById([t], t.id) == [];
    RemoveUnknownId(pre, t.id);
    RemoveUnknownId(post, t.id);
    assert pre + [] == pre;
  }

  /** When ids are distinct, deleting the id of entry k removes exactly that entry and
      keeps the others in their order. */
  lemma RemoveAt(txs: seq<Tx>, k: nat)
    requires IdsDistinct(txs) && k < |txs|
    ensures RemoveById(txs, txs[k].id) == txs[..k] + txs[k + 1..]
  {
    var pre, post := txs[..k], txs[k + 1..];
    forall i | 0 <= i < |pre| ensures pre[i].id != txs[k].id {
      assert pre[i] == txs[i];
    }
    forall i | 0 <= i < |post| ensures post[i].id != txs[k].id {
      assert post[i] == txs[k + 1 + i];
    }
    SplitAt(txs, k);
    RemoveOnly(pre, txs[k], post);
  }

  lemma SplitAt(txs: seq<Tx>, k: nat)
    requires k < |txs|
    ensures txs == txs[..k] + [txs[k]] + txs[k + 1..]
  {
  }

  /** Overwriting entries by an id no entry has leaves the list as it was. */
  lemma ReplaceUnknownId(txs: seq<Tx>, id: string, e: Entry)
    requires !HasId(txs, id)
    ensures ReplaceById(txs, id, e) == txs
  {
    var r := ReplaceById(txs, id, e);
    forall i | 0 <= i < |txs| ensures r[i] == txs[i] {
      assert txs[i].id != id;
    }
  }

  /** Editing keeps every id where it was, so distinct ids stay distinct. */
  lemma ReplaceKeepsIds(txs: seq<Tx>, id: string, e: Entry)
    ensures forall i :: 0 <= i < |txs| ==> ReplaceById(txs, id, e)[i].id == txs[i].id
    ensures IdsDistinct(txs) ==> IdsDistinct(ReplaceById(txs, id, e))
  {
  }

  /** Prepending an entry whose id is fresh keeps the ids distinct. */
  lemma PrependFresh(t: Tx, txs: seq<Tx>)
    requires IdsDistinct(txs) && !HasId(txs, t.id)
    ensures IdsDistinct([t] + txs)
  {
    var r := [t] + txs;
    forall i, j | 0 <= i < j < |r| ensures r[i].id != r[j].id {
      assert r[j] == txs[j - 1];
      if i > 0 {
        assert r[i] == txs[i - 1];
      }
    }
  }

  /** Deleting keeps ids distinct. */
  lemma {:induction false} RemoveKeepsDistinct(txs: seq<Tx>, id: string)
    requires IdsDistinct(txs)
    ensures IdsDistinct(RemoveById(txs, id))
  {
    if txs != [] {
      var tail := txs[1..];
      assert IdsDistinct(tail) by {
        forall i, j | 0 <= i < j < |tail| ensures tail[i].id != tail[j].id {
          assert tail[i] == txs[i + 1] && tail[j] == txs[j + 1];
        }
      }
      RemoveKeepsDistinct(tail, id);
      if txs[0].id != id {
        var rest := RemoveById(tail, id);
        assert forall t :: t in tail ==> t.id != txs[0].id by {
          forall t | t in tail ensures t.id != txs[0].id {
            var j :| 0 <= j < |tail| && tail[j] == t;
            assert txs[j + 1] == t;
          }
        }
        assert forall i :: 0 <= i < |rest| ==> rest[i] in rest;
        PrependFresh(txs[0], rest);
      }
    }
  }

  /** An overwrite by a form that passes validation keeps every entry accepted. */
  lemma ReplaceKeepsAccepted(txs: seq<Tx>, id: string, e: Entry)
    requires e.amount > 0 && e.date != ""
    ensures AllAccepted(txs) ==> AllAccepted(ReplaceById(txs, id, e))
  {
  }

  /** Deleting keeps every remaining entry accepted. */
  lemma RemoveKeepsAccepted(txs: seq<Tx>, id: string)
    ensures AllAccepted(txs) ==> AllAccepted(RemoveById(txs, id))
  {
    var r := RemoveById(txs, id);
    if AllAccepted(txs) {
      forall i | 0 <= i < |r| ensures Accepted(r[i]) {
        assert r[i] in txs;
      }
    }
  }
}
