/**
 * The application layer: TarefaService validates its input and then drives
 * the repository. Every failure leaves the store as it was.
 */
module Application {
  import opened Domain
  import opened Repository

  /** The failures the service reports. */
  datatype ServiceError =
    | EmptyDescription              // the description given was empty
    | InvalidTarefa                 // the task failed IsValid after being built or changed
    | TarefaNotFound                // no stored task has the id asked for
    | RepositoryError(cause: RepoError)  // a repository failure, passed on unchanged

  class TarefaService {
    const repository: InMemoryTarefaRepository

    /** The repository invariant, and every stored task is valid. */
    ghost predicate Valid()
      reads this, repository
    {
      repository.Valid() &&
      forall j :: 0 <= j < |repository.tarefas| ==> IsValid(repository.tarefas[j])
    }

    constructor (repository: InMemoryTarefaRepository)
      ensures this.repository == repository
    {
      this.repository := repository;
    }

    /** Exactly what the repository's FindAll gives: the store, in insertion order. */
    method ListarTarefas() returns (r: Result<seq<Tarefa>, RepoError>)
      ensures r == Ok(repository.tarefas)
    {
      r := repository.FindAll();
    }

    /**
     * Creates a task with description `descricao` and the next id. An empty
     * description is refused before the repository is touched, so no id is
     * used up; otherwise the new task is appended to the store and the
     * counter moves on by one.
     */
    method CriarTarefa(descricao: string) returns (r: Result<Tarefa, ServiceError>)
      modifies repository
      ensures descricao == "" ==>
        r == Err(EmptyDescription) &&
        repository.tarefas == old(repository.tarefas) && repository.nextID == old(repository.nextID)
      ensures descricao != "" ==>
        r == Ok(Tarefa(old(repository.nextID), descricao)) &&
        repository.tarefas == old(repository.tarefas) + [r.value] &&
        repository.nextID == old(repository.nextID) + 1
      ensures old(Valid()) && r.Ok? ==> IdsBelow(old(repository.tarefas), r.value.id)
      ensures old(Valid()) ==> Valid()
    {
      if descricao == "" {
        return Err(EmptyDescription);
      }
      var tarefa := NewTarefa(descricao);
      var id := repository.GetNextID();
      tarefa := tarefa.(id := id);
      if !IsValid(tarefa) {
        // Cannot happen: the description was found non-empty above.
        return Err(InvalidTarefa);
      }
      var saved := repository.Save(Some(tarefa));
      match saved {
        case Fail(e) => return Err(RepositoryError(e));
        case Pass =>
      }
      return Ok(tarefa);
    }

    /**
     * Gives the stored task with id `id` the description `descricao`. An empty
     * description is refused without a lookup, and a missing id is reported
     * as not found; in both cases the store is unchanged. Otherwise that one
     * task, keeping its id and its place, gets the new description.
     */
    method AtualizarTarefa(id: int, descricao: string) returns (r: Result<Tarefa, ServiceError>)
      modifies repository
      ensures repository.nextID == old(repository.nextID)
      ensures descricao == "" ==>
        r == Err(EmptyDescription) && repository.tarefas == old(repository.tarefas)
      ensures descricao != "" ==>
        match IndexOf(old(repository.tarefas), id)
        case None =>
          r == Err(TarefaNotFound) && repository.tarefas == old(repository.tarefas)
        case Some(i) =>
          r == Ok(Tarefa(id, descricao)) &&
          repository.tarefas == old(repository.tarefas)[i := r.value]
      ensures old(Valid()) ==> Valid()
    {
      if descricao == "" {
        return Err(EmptyDescription);
      }
      var found := repository.FindByID(id);
      match found {
        case Err(e) => return Err(RepositoryError(e));
        case Ok(_) =>
      }
      if found.value.None? {
        return Err(TarefaNotFound);
      }
      var tarefa := found.value.value.(descricao := descricao);
      if !IsValid(tarefa) {
        // Cannot happen: the description was found non-empty above.
        return Err(InvalidTarefa);
      }
      var updated := repository.Update(Some(tarefa));
      match updated {
        case Fail(e) => return Err(RepositoryError(e));
        case Pass =>
      }
      return Ok(tarefa);
    }

    /**
     * Removes the stored task with id `id`, keeping the others in order; a
     * missing id is reported as not found and the store is unchanged.
     */
    method ExcluirTarefa(id: int) returns (r: Outcome<ServiceError>)
      modifies repository
      ensures repository.nextID == old(repository.nextID)
      ensures match IndexOf(old(repository.tarefas), id)
        case None =>
          r == Fail(TarefaNotFound) && repository.tarefas == old(repository.tarefas)
        case Some(i) =>
          r == Pass && repository.tarefas == old(repository.tarefas)[..i] + old(repository.tarefas)[i + 1..]
      ensures old(Valid()) ==> Valid()
    {
      var found := repository.FindByID(id);
      match found {
        case Err(e) => return Fail(RepositoryError(e));
        case Ok(_) =>
      }
      if found.value.None? {
        return Fail(TarefaNotFound);
      }
      var deleted := repository.Delete(id);
      match deleted {
        case Fail(e) => return Fail(RepositoryError(e));
        case Pass =>
      }
      return Pass;
    }
  }

  // ---------------------------------------------------------------------------
  // What callers can rely on, proved from the service's contracts alone
  // ---------------------------------------------------------------------------

  /** A created task is found again by its id, unchanged. */
  method CreateThenFind(service: TarefaService, descricao: string)
    returns (created: Result<Tarefa, ServiceError>, found: FindByIDResult)
    requires service.Valid()
    modifies service.repository
    ensures descricao != "" ==> created.Ok? && found == Ok(Some(created.value))
    ensures service.Valid()
  {
    ghost var before := service.repository.tarefas;
    created := service.CriarTarefa(descricao);
    found := service.repository.FindByID(if created.Ok? then created.value.id else 0);
    if created.Ok? {
      SaveThenFind(before, created.value);
    }
  }

  /** Creating twice with one description gives two tasks with distinct, increasing ids. */
  method CreateTwice(service: TarefaService, descricao: string)
    returns (a: Result<Tarefa, ServiceError>, b: Result<Tarefa, ServiceError>)
    requires descricao != ""
    modifies service.repository
    ensures a.Ok? && b.Ok?
    ensures a.value.descricao == descricao && b.value.descricao == descricao
    ensures a.value.id < b.value.id && a.value != b.value
  {
    a := service.CriarTarefa(descricao);
    b := service.CriarTarefa(descricao);
  }

  /**
   * Deleting a task and creating another never hands its id out again: the
   * new id is above the deleted one and above every id stored before.
   */
  method CreateDeleteCreate(service: TarefaService, descricao: string)
    returns (a: Result<Tarefa, ServiceError>, deleted: Outcome<ServiceError>, b: Result<Tarefa, ServiceError>)
    requires service.Valid() && descricao != ""
    modifies service.repository
    ensures a.Ok? && deleted == Pass && b.Ok?
    ensures a.value.id < b.value.id
    ensures IdsBelow(old(service.repository.tarefas), b.value.id)
    ensures IndexOf(service.repository.tarefas, a.value.id) == None
    ensures service.Valid()
  {
    ghost var before := service.repository.tarefas;
    a := service.CriarTarefa(descricao);
    ghost var withA := service.repository.tarefas;
    IndexOfStored(withA, |before|);
    deleted := service.ExcluirTarefa(a.value.id);
    DeleteThenMissing(withA, |before|);
    ghost var afterDelete := service.repository.tarefas;
    b := service.CriarTarefa(descricao);
    assert afterDelete == before;
    SaveKeepsMissing(afterDelete, b.value, a.value.id);
  }

  /** Deleting one id twice: the first call succeeds, the second reports not found. */
  method DeleteTwice(service: TarefaService, id: int)
    returns (first: Outcome<ServiceError>, second: Outcome<ServiceError>)
    requires service.Valid()
    requires IndexOf(service.repository.tarefas, id).Some?
    modifies service.repository
    ensures first == Pass && second == Fail(TarefaNotFound)
    ensures service.Valid()
  {
    ghost var before := service.repository.tarefas;
    ghost var i := IndexOf(before, id).value;
    first := service.ExcluirTarefa(id);
    DeleteThenMissing(before, i);
    second := service.ExcluirTarefa(id);
  }

  /** A short session against a fresh repository, step by step. */
  method ExampleSession()
  {
    var repository := new InMemoryTarefaRepository();
    var service := new TarefaService(repository);

    var empty := service.CriarTarefa("");
    assert empty == Err(EmptyDescription) && repository.nextID == 1;

    var a := service.CriarTarefa("A");
    assert a == Ok(Tarefa(1, "A"));
    var b := service.CriarTarefa("B");
    assert b == Ok(Tarefa(2, "B"));
    assert repository.tarefas == [Tarefa(1, "A"), Tarefa(2, "B")];

    var a2 := service.AtualizarTarefa(1, "A2");
    assert IndexOf([Tarefa(1, "A"), Tarefa(2, "B")], 1) == Some(0);
    assert a2 == Ok(Tarefa(1, "A2"));
    assert repository.tarefas == [Tarefa(1, "A2"), Tarefa(2, "B")];
    var all := service.ListarTarefas();
    assert all == Ok([Tarefa(1, "A2"), Tarefa(2, "B")]);

    var missing := service.AtualizarTarefa(7, "X");
    assert missing == Err(TarefaNotFound);

    assert IndexOf([Tarefa(1, "A2"), Tarefa(2, "B")], 1) == Some(0);
    var d1 := service.ExcluirTarefa(1);
    assert d1 == Pass;
    assert repository.tarefas == [Tarefa(2, "B")];
    all := service.ListarTarefas();
    assert all == Ok([Tarefa(2, "B")]);
    var d2 := service.ExcluirTarefa(1);
    assert d2 == Fail(TarefaNotFound);

    var c := service.CriarTarefa("C");
    assert c == Ok(Tarefa(3, "C"));
  }
}
