/**
 * The in-memory TarefaRepository: an ordered store of tasks plus the counter
 * that hands out ids.
 */
module Repository {
  import opened Domain

  // ---------------------------------------------------------------------------
  // Specification of the linear scans
  // ---------------------------------------------------------------------------

  /** The position of the first task in `s` whose id is `id`, if there is one. */
  function IndexOf(s: seq<Tarefa>, id: int): (r: Option<nat>)
    ensures r.Some? ==> r.value < |s| && s[r.value].id == id
    ensures r.Some? ==> forall j :: 0 <= j < r.value ==> s[j].id != id
    ensures r.None? <==> forall j :: 0 <= j < |s| ==> s[j].id != id
  {
    if |s| == 0 then None
    else if s[0].id == id then Some(0)
    else match IndexOf(s[1..], id)
      case None => None
      case Some(k) => Some(k + 1)
  }

  /** Ids strictly increase along the store, so no id occurs twice. */
  predicate IdsIncreasing(s: seq<Tarefa>)
  {
    forall i, j :: 0 <= i < j < |s| ==> s[i].id < s[j].id
  }

  /** Every id in `s` is below `bound`. */
  predicate IdsBelow(s: seq<Tarefa>, bound: int)
  {
    forall j :: 0 <= j < |s| ==> s[j].id < bound
  }

  /**
   * The repository invariant: the counter starts at 1 and never falls back,
   * every stored id was issued by it (so lies in [1, nextID)), and the store
   * holds ids in the increasing order in which they were issued.
   */
  predicate WellFormed(s: seq<Tarefa>, nextID: int)
  {
    1 <= nextID && IdsIncreasing(s) && IdsBelow(s, nextID) &&
    forall j :: 0 <= j < |s| ==> 1 <= s[j].id
  }

  // ---------------------------------------------------------------------------
  // Lemmas about the store
  // ---------------------------------------------------------------------------

  /** With increasing ids, a lookup by the id of a stored task finds that very task. */
  lemma IndexOfStored(s: seq<Tarefa>, i: nat)
    requires IdsIncreasing(s) && i < |s|
    ensures IndexOf(s, s[i].id) == Some(i)
  {
  }

  /** After appending a task whose id is not stored, looking that id up finds the new last element. */
  lemma {:induction false} SaveThenFind(s: seq<Tarefa>, t: Tarefa)
    requires IndexOf(s, t.id) == None
    ensures IndexOf(s + [t], t.id) == Some(|s|)
  {
    var s' := s + [t];
    assert s'[|s|].id == t.id;
    assert forall j :: 0 <= j < |s| ==> s'[j] == s[j];
  }

  /** Appending leaves every earlier lookup where it was. */
  lemma {:induction false} SaveKeepsOthers(s: seq<Tarefa>, t: Tarefa, id: int)
    requires IndexOf(s, id).Some?
    ensures IndexOf(s + [t], id) == IndexOf(s, id)
  {
    var k := IndexOf(s, id).value;
    var s' := s + [t];
    assert s'[k] == s[k];
    assert forall j :: 0 <= j < k ==> s'[j] == s[j];
  }

  /** Appending a task with another id leaves a missing id missing. */
  lemma SaveKeepsMissing(s: seq<Tarefa>, t: Tarefa, id: int)
    requires IndexOf(s, id) == None && t.id != id
    ensures IndexOf(s + [t], id) == None
  {
  }

  /** Replacing the first task with a given id by one with the same id keeps it findable at the same place. */
  lemma {:induction false} UpdateThenFind(s: seq<Tarefa>, i: nat, t: Tarefa)
    requires IndexOf(s, t.id) == Some(i)
    ensures IndexOf(s[i := t], t.id) == Some(i)
  {
    var s' := s[i := t];
    assert s'[i].id == t.id;
    assert forall j :: 0 <= j < i ==> s'[j] == s[j];
  }

  /** With increasing ids, removing the task with id `s[i].id` leaves no task with that id. */
  lemma DeleteThenMissing(s: seq<Tarefa>, i: nat)
    requires IdsIncreasing(s) && i < |s|
    ensures IndexOf(s[..i] + s[i + 1..], s[i].id) == None
  {
  }

  /** Replacing a task by one with the same id keeps the invariant. */
  lemma UpdateKeepsWellFormed(s: seq<Tarefa>, nextID: int, i: nat, t: Tarefa)
    requires WellFormed(s, nextID) && i < |s| && s[i].id == t.id
    ensures WellFormed(s[i := t], nextID)
  {
  }

  /** Removing one task keeps the invariant (the counter is untouched). */
  lemma DeleteKeepsWellFormed(s: seq<Tarefa>, nextID: int, i: nat)
    requires WellFormed(s, nextID) && i < |s|
    ensures WellFormed(s[..i] + s[i + 1..], nextID)
  {
  }

  /** Appending a task with an id above every stored one and below the counter keeps the invariant. */
  lemma SaveKeepsWellFormed(s: seq<Tarefa>, nextID: int, t: Tarefa)
    requires WellFormed(s, nextID) && IdsBelow(s, t.id) && 1 <= t.id < nextID
    ensures WellFormed(s + [t], nextID)
  {
  }

  // ---------------------------------------------------------------------------
  // The repository
  // ---------------------------------------------------------------------------

  class InMemoryTarefaRepository {
    /** The stored tasks, in insertion order. */
    var tarefas: seq<Tarefa>
    /** The id the next call of GetNextID hands out. */
    var nextID: int

    ghost predicate Valid()
      reads this
    {
      WellFormed(tarefas, nextID)
    }

    /** A fresh repository: an empty store and a counter at 1. */
    constructor ()
      ensures tarefas == [] && nextID == 1
      ensures Valid()
    {
      tarefas := [];
      nextID := 1;
    }

    /** The whole store in insertion order; never fails. */
    method FindAll() returns (r: FindAllResult)
      ensures r.Ok? && r.value == tarefas
    {
      return Ok(tarefas);
    }

    /**
     * The first stored task whose id is `id`, or `Ok(None)` when there is
     * none; never fails.
     */
    method FindByID(id: int) returns (r: FindByIDResult)
      ensures r.Ok?
      ensures r.value.None? <==> forall j :: 0 <= j < |tarefas| ==> tarefas[j].id != id
      ensures r.value.Some? ==> r.value.value.id == id && r.value.value in tarefas
      ensures match IndexOf(tarefas, id)
        case Some(i) => r.value == Some(tarefas[i])
        case None => r.value == None
    {
      for i := 0 to |tarefas|
        invariant forall j :: 0 <= j < i ==> tarefas[j].id != id
      {
        if tarefas[i].id == id {
          return Ok(Some(tarefas[i]));
        }
      }
      return Ok(None);
    }

    /** Appends `t` at the end of the store; fails, changing nothing, when there is no task. */
    method Save(t: Option<Tarefa>) returns (r: WriteOutcome)
      modifies this
      ensures nextID == old(nextID)
      ensures t.None? ==> r == Fail(NilTarefa) && tarefas == old(tarefas)
      ensures t.Some? ==> r == Pass && tarefas == old(tarefas) + [t.value]
      ensures old(Valid()) && t.Some? && IdsBelow(old(tarefas), t.value.id) && 1 <= t.value.id < nextID
              ==> Valid()
    {
      if t.None? {
        return Fail(NilTarefa);
      }
      tarefas := tarefas + [t.value];
      if old(Valid()) && IdsBelow(old(tarefas), t.value.id) && 1 <= t.value.id < nextID {
        SaveKeepsWellFormed(old(tarefas), nextID, t.value);
      }
      return Pass;
    }

    /**
     * Replaces the first stored task with the id of `t` by `t`, in place;
     * fails, changing nothing, when there is no task or no such id.
     */
    method Update(t: Option<Tarefa>) returns (r: WriteOutcome)
      modifies this
      ensures nextID == old(nextID)
      ensures t.None? ==> r == Fail(NilTarefa) && tarefas == old(tarefas)
      ensures t.Some? ==>
        match IndexOf(old(tarefas), t.value.id)
        case Some(i) => r == Pass && tarefas == old(tarefas)[i := t.value]
        case None => r == Fail(NotFoundForUpdate) && tarefas == old(tarefas)
      ensures old(Valid()) ==> Valid()
    {
      if t.None? {
        return Fail(NilTarefa);
      }
      for i := 0 to |tarefas|
        invariant forall j :: 0 <= j < i ==> tarefas[j].id != t.value.id
        invariant tarefas == old(tarefas) && nextID == old(nextID)
      {
        if tarefas[i].id == t.value.id {
          if old(Valid()) {
            UpdateKeepsWellFormed(tarefas, nextID, i, t.value);
          }
          tarefas := tarefas[i := t.value];
          return Pass;
        }
      }
      return Fail(NotFoundForUpdate);
    }

    /**
     * Removes the first stored task whose id is `id`, keeping the others in
     * order; fails, changing nothing, when there is none.
     */
    method Delete(id: int) returns (r: WriteOutcome)
      modifies this
      ensures nextID == old(nextID)
      ensures match IndexOf(old(tarefas), id)
        case Some(i) => r == Pass && tarefas == old(tarefas)[..i] + old(tarefas)[i + 1..]
        case None => r == Fail(NotFoundForDelete) && tarefas == old(tarefas)
      ensures old(Valid()) ==> Valid()
    {
      for i := 0 to |tarefas|
        invariant forall j :: 0 <= j < i ==> tarefas[j].id != id
        invariant tarefas == old(tarefas) && nextID == old(nextID)
      {
        if tarefas[i].id == id {
          if old(Valid()) {
            DeleteKeepsWellFormed(tarefas, nextID, i);
          }
          tarefas := tarefas[..i] + tarefas[i + 1..];
          return Pass;
        }
      }
      return Fail(NotFoundForDelete);
    }

    /**
     * Hands out the current counter value and advances the counter by one.
     * It is the only operation that touches the counter, and it never fails.
     */
    method GetNextID() returns (id: int)
      modifies this
      ensures id == old(nextID) && nextID == id + 1
      ensures tarefas == old(tarefas)
      ensures old(Valid()) ==> Valid() && IdsBelow(tarefas, id)
    {
      id := nextID;
      nextID := nextID + 1;
    }
  }
}
