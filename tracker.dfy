/** The state of the App component and the actions that change it. The component keeps
    the active month, that month's budget and transactions, and the entry form. Saved
    data lives in the browser's localStorage under `budget_<YYYY-MM>` and `tx_<YYYY-MM>`;
    here that store is two maps keyed by month, and the JSON encoding is left out. */
module Tracker {
  import opened Wrappers
  import opened Ledger
  import opened Months

  /** What submitTx does: reject the amount, reject the date, or save. */
  datatype SubmitOutcome = InvalidAmount | InvalidDate | Saved

  /** submitTx's checks, in its order. The amount field holds a number or "" (None);
      "" reads as 0, and 0 or less is rejected before the date is looked at. */
  function Validate(amount: Option<int>, date: string): (r: SubmitOutcome)
    ensures r == Saved <==> amount.Some? && amount.value > 0 && date != ""
    ensures r == InvalidAmount <==> !(amount.Some? && amount.value > 0)
  {
    if !(amount.Some? && amount.value > 0) then InvalidAmount
    else if date == "" then InvalidDate
    else Saved
  }

  /** `localStorage.getItem(TX_KEY(ym))`, parsed, or [] when nothing is stored. */
  function StoredTxs(store: map<YearMonth, seq<Tx>>, ym: YearMonth): (r: seq<Tx>)
    ensures ym !in store ==> r == []
    ensures ym in store ==> r == store[ym]
  {
    if ym in store then store[ym] else []
  }

  /** `Number(localStorage.getItem(BUDGET_KEY(ym)) || 0)`. */
  function StoredBudget(store: map<YearMonth, int>, ym: YearMonth): (r: int)
    ensures ym !in store ==> r == 0
    ensures ym in store ==> r == store[ym]
  {
    if ym in store then store[ym] else 0
  }

  /** What is saved under a month is what that month loads afterwards, and saving under
      one month leaves what every other month loads as it was. */
  lemma SaveThenLoad(txStore: map<YearMonth, seq<Tx>>, budgetStore: map<YearMonth, int>,
                     ym: YearMonth, list: seq<Tx>, budget: int, other: YearMonth)
    ensures StoredTxs(txStore[ym := list], ym) == list
    ensures StoredBudget(budgetStore[ym := budget], ym) == budget
    ensures other != ym ==> StoredTxs(txStore[ym := list], other) == StoredTxs(txStore, other)
    ensures other != ym ==> StoredBudget(budgetStore[ym := budget], other) == StoredBudget(budgetStore, other)
  {
  }

  /** `if (editingId)`: a null id and an empty id both mean "not editing". */
  predicate IsEditing(editingId: Option<string>): (r: bool)
    ensures !r <==> editingId == None || editingId == Some("")
  {
    editingId.Some? && editingId.value != ""
  }

  /** The list submitTx saves for a valid form: the edited entries overwritten, or the
      new entry in front of the old ones. */
  function SavedList(txs: seq<Tx>, editingId: Option<string>, freshId: string, e: Entry): (r: seq<Tx>)
    ensures IsEditing(editingId) ==> |r| == |txs| && forall i :: 0 <= i < |r| ==> r[i].id == txs[i].id
    ensures !IsEditing(editingId) ==> |r| == |txs| + 1 && r[0] == NewTx(freshId, e) && r[1..] == txs
  {
    if IsEditing(editingId) then ReplaceById(txs, editingId.value, e) else [NewTx(freshId, e)] + txs
  }

  /** Saving a valid form keeps every entry accepted and, with a fresh id, keeps the ids
      distinct. */
  lemma SavedListKeeps(txs: seq<Tx>, editingId: Option<string>, freshId: string, e: Entry)
    requires e.amount > 0 && e.date != ""
    requires !IsEditing(editingId) ==> !HasId(txs, freshId)
    ensures AllAccepted(txs) ==> AllAccepted(SavedList(txs, editingId, freshId, e))
    ensures IdsDistinct(txs) ==> IdsDistinct(SavedList(txs, editingId, freshId, e))
  {
    if IsEditing(editingId) {
      ReplaceKeepsAccepted(txs, editingId.value, e);
      ReplaceKeepsIds(txs, editingId.value, e);
    } else {
      var r := [NewTx(freshId, e)] + txs;
      assert forall i :: 1 <= i < |r| ==> r[i] == txs[i - 1];
      if IdsDistinct(txs) {
        PrependFresh(NewTx(freshId, e), txs);
      }
    }
  }

  class App {
    var ym: YearMonth
    var budget: int
    var txs: seq<Tx>

    // The entry form.
    var editingId: Option<string>
    var kind: TxKind
    var amount: Option<int>
    var desc: string
    var date: string
    var category: string

    // The persisted store.
    var storedTxs: map<YearMonth, seq<Tx>>
    var storedBudgets: map<YearMonth, int>

    /** The active month is a real month of a year the `YYYY-MM` text can hold, and the
        list on screen is the one saved for it. */
    ghost predicate Valid()
      reads this
    {
      ym.Valid() && ym.year >= 0 && txs == StoredTxs(storedTxs, ym)
    }

    /** `if (editingId)`: a null id and an empty id both mean "not editing". */
    predicate Editing()
      reads this
    {
      IsEditing(editingId)
    }

    /** The form as resetForm leaves it; `today` is the date the clock gives. */
    ghost predicate FormIsReset(today: string)
      reads this
    {
      editingId == None && kind == Expense && amount == None && desc == ""
      && date == today && category == "General"
    }

    /** Every transaction in the store passed submitTx's checks. */
    ghost predicate StoreAccepted()
      reads this
    {
      forall m :: m in storedTxs ==> AllAccepted(storedTxs[m])
    }

    function FormEntry(): Entry
      reads this
      requires amount.Some?
    {
      Entry(kind, amount.value, date, desc, category)
    }

    /** Mounting the component on month `month`: the month-loading effect has run, so
        the month's budget and list come from the store and the form is reset. */
    constructor (month: YearMonth, today: string,
                 txStore: map<YearMonth, seq<Tx>>, budgetStore: map<YearMonth, int>)
      requires month.Valid() && month.year >= 0
      ensures Valid() && ym == month
      ensures storedTxs == txStore && storedBudgets == budgetStore
      ensures txs == StoredTxs(txStore, month) && budget == StoredBudget(budgetStore, month)
      ensures FormIsReset(today)
    {
      ym := month;
      storedTxs := txStore;
      storedBudgets := budgetStore;
      budget := StoredBudget(budgetStore, month);
      txs := StoredTxs(txStore, month);
      editingId := None;
      kind := Expense;
      amount := None;
      desc := "";
      date := today;
      category := "General";
    }

    /** resetForm: the form's defaults, with today's date. */
    method ResetForm(today: string)
      modifies this
      ensures FormIsReset(today)
      ensures ym == old(ym) && budget == old(budget) && txs == old(txs)
      ensures storedTxs == old(storedTxs) && storedBudgets == old(storedBudgets)
    {
      editingId := None;
      kind := Expense;
      amount := None;
      desc := "";
      date := today;
      category := "General";
    }

    /** persistTx: the new list goes on screen and into the store under this month. */
    method PersistTxs(next: seq<Tx>)
      requires Valid()
      modifies this
      ensures Valid() && txs == next
      ensures storedTxs == old(storedTxs)[ym := next]
      ensures old(StoreAccepted()) && AllAccepted(next) ==> StoreAccepted()
      ensures ym == old(ym) && budget == old(budget) && storedBudgets == old(storedBudgets)
      ensures editingId == old(editingId) && kind == old(kind) && amount == old(amount)
      ensures desc == old(desc) && date == old(date) && category == old(category)
    {
      txs := next;
      storedTxs := storedTxs[ym := next];
    }

    /** The month-loading effect: budget and list of the active month from the store (0
        and [] when absent), then resetForm. */
    method LoadMonth(today: string)
      requires ym.Valid() && ym.year >= 0
      modifies this
      ensures Valid() && ym == old(ym)
      ensures budget == StoredBudget(storedBudgets, ym) && txs == StoredTxs(storedTxs, ym)
      ensures storedTxs == old(storedTxs) && storedBudgets == old(storedBudgets)
      ensures FormIsReset(today)
    {
      budget := StoredBudget(storedBudgets, ym);
      txs := StoredTxs(storedTxs, ym);
      ResetForm(today);
    }

    /** "Mes anterior": setYm(prevYM(ym)). The month always changes, so the effect runs. */
    method PreviousMonth(today: string)
      requires Valid()
      modifies this
      ensures Valid() && ym == Prev(old(ym)) && ym != old(ym)
      ensures Format(ym) == PrevText(Format(old(ym)))
      ensures budget == StoredBudget(storedBudgets, ym) && txs == StoredTxs(storedTxs, ym)
      ensures storedTxs == old(storedTxs) && storedBudgets == old(storedBudgets)
      ensures FormIsReset(today)
    {
      StepsMove(ym);
      TextSteps(ym);
      ym := Prev(ym);
      LoadMonth(today);
    }

    /** "Mes siguiente": setYm(nextYM(ym)). */
    method NextMonth(today: string)
      requires Valid()
      modifies this
      ensures Valid() && ym == Next(old(ym)) && ym != old(ym)
      ensures Format(ym) == NextText(Format(old(ym)))
      ensures budget == StoredBudget(storedBudgets, ym) && txs == StoredTxs(storedTxs, ym)
      ensures storedTxs == old(storedTxs) && storedBudgets == old(storedBudgets)
      ensures FormIsReset(today)
    {
      StepsMove(ym);
      TextSteps(ym);
      ym := Next(ym);
      LoadMonth(today);
    }

    /** saveBudget: `Number(budget) || 0` is the budget itself for a whole number, and it
        is stored under the active month. Nothing clamps a negative budget. */
    method SaveBudget()
      requires Valid()
      modifies this
      ensures Valid()
      ensures storedBudgets == old(storedBudgets)[ym := old(budget)]
      ensures budget == old(budget) && ym == old(ym) && txs == old(txs)
      ensures storedTxs == old(storedTxs)
      ensures editingId == old(editingId) && kind == old(kind) && amount == old(amount)
      ensures desc == old(desc) && date == old(date) && category == old(category)
    {
      storedBudgets := storedBudgets[ym := budget];
    }

    /** submitTx. `freshId` stands for crypto.randomUUID(), so it is new to the list.
        A rejected form changes nothing. A saved edit overwrites the entries with the
        edited id; a saved new entry goes in front. Either way the form is reset. */
    method Submit(freshId: string, today: string) returns (outcome: SubmitOutcome)
      requires Valid()
      requires !Editing() ==> !HasId(txs, freshId)
      modifies this
      ensures Valid()
      ensures outcome == Validate(old(amount), old(date))
      ensures outcome != Saved ==> unchanged(this)
      ensures outcome == Saved && old(Editing()) ==>
        txs == ReplaceById(old(txs), old(editingId.value), old(FormEntry()))
      ensures outcome == Saved && !old(Editing()) ==>
        txs == [NewTx(freshId, old(FormEntry()))] + old(txs)
      ensures outcome == Saved ==> storedTxs == old(storedTxs)[ym := txs] && FormIsReset(today)
      ensures ym == old(ym) && budget == old(budget) && storedBudgets == old(storedBudgets)
      ensures old(AllAccepted(txs)) ==> AllAccepted(txs)
      ensures old(StoreAccepted()) ==> StoreAccepted()
      ensures old(IdsDistinct(txs)) ==> IdsDistinct(txs)
    {
      outcome := Validate(amount, date);
      if outcome != Saved {
        return;
      }
      var e := FormEntry();
      SavedListKeeps(txs, editingId, freshId, e);
      PersistTxs(SavedList(txs, editingId, freshId, e));
      ResetForm(today);
    }

    /** editTx: load the first entry with the id into the form (an empty category shows
        as "General"); an unknown id changes nothing. */
    method Edit(id: string)
      modifies this
      ensures Find(old(txs), id).None? ==> unchanged(this)
      ensures Find(old(txs), id).Some? ==>
        var t := Find(old(txs), id).value;
        && editingId == Some(t.id) && t.id == id
        && kind == t.kind && amount == Some(t.amount) && desc == t.description
        && date == t.date && category == (if t.category == "" then "General" else t.category)
      ensures ym == old(ym) && budget == old(budget) && txs == old(txs)
      ensures storedTxs == old(storedTxs) && storedBudgets == old(storedBudgets)
    {
      var found := Find(txs, id);
      if found.None? {
        return;
      }
      var t := found.value;
      editingId := Some(t.id);
      kind := t.kind;
      amount := Some(t.amount);
      desc := t.description;
      date := t.date;
      category := if t.category == "" then "General" else t.category;
    }

    /** deleteTx: when the user confirms, drop every entry with the id. */
    method Delete(id: string, confirmed: bool)
      requires Valid()
      modifies this
      ensures Valid()
      ensures !confirmed ==> unchanged(this)
      ensures confirmed ==> txs == RemoveById(old(txs), id) && storedTxs == old(storedTxs)[ym := txs]
      ensures ym == old(ym) && budget == old(budget) && storedBudgets == old(storedBudgets)
      ensures editingId == old(editingId) && kind == old(kind) && amount == old(amount)
      ensures desc == old(desc) && date == old(date) && category == old(category)
      ensures old(AllAccepted(txs)) ==> AllAccepted(txs)
      ensures old(StoreAccepted()) ==> StoreAccepted()
      ensures old(IdsDistinct(txs)) ==> IdsDistinct(txs)
    {
      if !confirmed {
        return;
      }
      RemoveKeepsAccepted(txs, id);
      assert AllAccepted(txs) ==> AllAccepted(RemoveById(txs, id));
      if IdsDistinct(txs) {
        RemoveKeepsDistinct(txs, id);
      }
      PersistTxs(RemoveById(txs, id));
    }
  }
}
