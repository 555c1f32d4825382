/**
 * The domain layer: the Tarefa (task) entity with its validity rule, and the
 * shapes of the six operations every TarefaRepository offers.
 */
module Domain {

  /** A value that may be absent; stands for a Go pointer that may be nil. */
  datatype Option<+T> = None | Some(value: T)

  /** A Go `(value, error)` pair: either a value, or an error. */
  datatype Result<+T, +E> = Ok(value: T) | Err(error: E)

  /** A lone Go `error` return: nil (Pass) or an error. */
  datatype Outcome<+E> = Pass | Fail(error: E)

  // ---------------------------------------------------------------------------
  // The entity
  // ---------------------------------------------------------------------------

  /** A task: an integer identifier and a description. */
  datatype Tarefa = Tarefa(id: int, descricao: string)

  /** Builds a task from its description, leaving the id at Go's zero value. */
  function NewTarefa(descricao: string): (t: Tarefa)
    ensures t.descricao == descricao
    ensures t.id == 0
  {
    Tarefa(0, descricao)
  }

  /** A task is valid when its description is not empty. */
  predicate IsValid(t: Tarefa)
    ensures IsValid(t) <==> |t.descricao| > 0
  {
    t.descricao != ""
  }

  /** Validity looks at the description only: the id takes no part in it. */
  lemma ValidityIgnoresId(t: Tarefa, u: Tarefa)
    requires t.descricao == u.descricao
    ensures IsValid(t) == IsValid(u)
  {
  }

  /**
   * A freshly built task, whatever id it is given afterwards, is valid
   * exactly when its description has at least one character.
   */
  lemma NewTarefaValidIffNonEmpty(descricao: string, id: int)
    ensures IsValid(NewTarefa(descricao).(id := id)) <==> |descricao| > 0
  {
  }

  // ---------------------------------------------------------------------------
  // The repository contract: what each of the six operations returns
  // ---------------------------------------------------------------------------

  /** The failures a repository reports. */
  datatype RepoError =
    | NilTarefa          // Save or Update was handed no task
    | NotFoundForUpdate  // Update found no stored task with the given id
    | NotFoundForDelete  // Delete found no stored task with the given id

  /** FindAll: the whole collection, or an error. */
  type FindAllResult = Result<seq<Tarefa>, RepoError>

  /**
   * FindByID: an optional task, or an error. A missing id is `Ok(None)`,
   * an ordinary outcome kept apart from a failure.
   */
  type FindByIDResult = Result<Option<Tarefa>, RepoError>

  /** Save, Update and Delete report success or failure and return no data. */
  type WriteOutcome = Outcome<RepoError>

  // GetNextID returns a plain `int`: it has no failure outcome.
}
