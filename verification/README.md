# Tarefa CRUD core in Dafny

This project models the core of a small task ("tarefa") service written in Go. It covers three layers:

- **Domain** (`domain.dfy`, module `Domain`). The `Tarefa` entity is an `(id, descricao)` value. `NewTarefa` builds one with id 0, and `IsValid` holds when the description is non-empty. The `TarefaRepository` interface is given as the shapes of its six results:
  - `FindAllResult` is the collection or an error.
  - `FindByIDResult` is an optional task or an error, so "absent" (`Ok(None)`) is an ordinary outcome and not a failure.
  - `WriteOutcome` covers Save, Update and Delete, which report only success or failure.
  - GetNextID returns a plain `int` and has no failure outcome.
  - The repository's failure kinds are `NilTarefa`, `NotFoundForUpdate` and `NotFoundForDelete`.
- **In-memory repository** (`in_memory_tarefa_repository.dfy`, module `Repository`). Class `InMemoryTarefaRepository` has the Go fields `tarefas` (the slice, as a `seq<Tarefa>`) and `nextID`.
  - FindByID, Update and Delete are the Go scans, written as loops with invariants.
  - Each one is specified by `IndexOf`, the position of the first task with a given id.
  - Update replaces the element at that index. Delete removes it, keeping the rest in order. Save appends. GetNextID returns the counter and then increments it.
  - `Valid()` is the store invariant:
    - the counter is at least 1;
    - every stored id lies in `[1, nextID)`;
    - ids strictly increase along the store, so no id occurs twice.
  - The methods do not require the invariant, because the Go code works on any state. Each method instead ensures `old(Valid()) ==> Valid()`. For Save, this holds when the appended id is above every stored id and below the counter, which is what the service supplies.
- **Service** (`tarefa_service.dfy`, module `Application`). Class `TarefaService` holds the repository. `ListarTarefas`, `CriarTarefa`, `AtualizarTarefa` and `ExcluirTarefa` follow the Go code's early returns in the same order.
  - Each one states its result and the new store and counter in terms of the old ones.
  - Every failure leaves the store unchanged.
  - The service invariant adds to the repository invariant that every stored task is valid.
  - Client methods at the end of the file prove properties from these contracts:
    - a created task is found again;
    - two creations never share an id, even with a deletion in between;
    - deleting twice succeeds first and then reports not found;
    - a short example session.

Errors are datatypes of kinds (`ServiceError`, `RepoError`), not message strings.

Two points the model takes from the code:
- Update and Delete act on the *first* stored task with the id. Under the invariant, that is the only one.
- The service's own not-found kind comes from its FindByID check. After a successful lookup, the repository's own not-found errors from Update and Delete cannot occur. They are still passed on unchanged as `RepositoryError`, as the Go code does.

## Model

| member | source | states |
|---|---|---|
| `Domain.NewTarefa` | internal/domain/tarefa.go:10-14 | the new task's description is exactly the argument, its id is Go's zero value 0, and construction has no failure outcome |
| `Domain.IsValid` | internal/domain/tarefa.go:17-19 | true exactly when the description is non-empty; the id takes no part |
| `Domain.ValidityIgnoresId` | internal/domain/tarefa.go:17-19 | two tasks with the same description are equally valid: the id takes no part in validity |
| `Domain.NewTarefaValidIffNonEmpty` | internal/domain/tarefa.go:10-19 | a freshly built task is valid, whatever id it is later given, iff its description is non-empty; so the service's IsValid gate after its emptiness check can never fire |
| `Repository.IndexOf` | internal/infrastructure/repository/in_memory_tarefa_repository.go:29-35 | the scan's result is the first position whose id matches (every earlier one differs), or absent exactly when no stored task has that id |
| `Repository.IndexOfStored` | internal/infrastructure/repository/in_memory_tarefa_repository.go:30-33 | with increasing ids, looking up the id of the task at position i finds position i, so a lookup hits the only task with that id |
| `Repository.SaveThenFind` | internal/infrastructure/repository/in_memory_tarefa_repository.go:44 | after appending a task whose id is not stored, a lookup of that id finds the new last element |
| `Repository.SaveKeepsOthers` | internal/infrastructure/repository/in_memory_tarefa_repository.go:44 | appending does not move the position at which an already stored id is found |
| `Repository.SaveKeepsMissing` | internal/infrastructure/repository/in_memory_tarefa_repository.go:44 | appending a task with another id leaves a missing id missing |
| `Repository.UpdateThenFind` | internal/infrastructure/repository/in_memory_tarefa_repository.go:54-58 | replacing the first task with an id by a task with that id keeps it findable at the same position |
| `Repository.DeleteThenMissing` | internal/infrastructure/repository/in_memory_tarefa_repository.go:66-70 | with increasing ids, removing the task at position i leaves no task with its id, so a second delete of it finds nothing |
| `Repository.UpdateKeepsWellFormed` | internal/infrastructure/repository/in_memory_tarefa_repository.go:54-58 | replacing a task by one with the same id preserves the store invariant |
| `Repository.DeleteKeepsWellFormed` | internal/infrastructure/repository/in_memory_tarefa_repository.go:66-70 | removing one task and leaving the counter alone preserves the store invariant |
| `Repository.SaveKeepsWellFormed` | internal/infrastructure/repository/in_memory_tarefa_repository.go:39-46 | appending a task whose id is above every stored id, at least 1 and below the counter preserves the store invariant |
| `Repository.InMemoryTarefaRepository.constructor` | internal/infrastructure/repository/in_memory_tarefa_repository.go:16-21 | a fresh repository has an empty store and counter 1, and satisfies the invariant |
| `Repository.InMemoryTarefaRepository.FindAll` | internal/infrastructure/repository/in_memory_tarefa_repository.go:24-26 | never fails and returns the whole store in insertion order |
| `Repository.InMemoryTarefaRepository.FindByID` | internal/infrastructure/repository/in_memory_tarefa_repository.go:29-36 | never fails and changes nothing; returns the first stored task with the id, or absent (not an error) exactly when no stored task has it |
| `Repository.InMemoryTarefaRepository.Save` | internal/infrastructure/repository/in_memory_tarefa_repository.go:39-46 | no task: fails with the nil-argument error, store unchanged; otherwise succeeds and the store is the old one with the task appended at the end; the counter is untouched |
| `Repository.InMemoryTarefaRepository.Update` | internal/infrastructure/repository/in_memory_tarefa_repository.go:49-62 | no task: nil-argument error; id present: the first task with it is replaced at its index and every other position and the length stay; id absent: not-found-for-update error with the store unchanged; counter untouched; invariant kept |
| `Repository.InMemoryTarefaRepository.Delete` | internal/infrastructure/repository/in_memory_tarefa_repository.go:65-73 | id present: the store becomes `s[..i] + s[i+1..]` for the first matching index i, keeping order; id absent: not-found-for-delete error with the store unchanged; the counter is untouched, so no id is reissued; invariant kept |
| `Repository.InMemoryTarefaRepository.GetNextID` | internal/infrastructure/repository/in_memory_tarefa_repository.go:76-80 | returns the old counter and raises it by exactly one, leaving the store alone; when the invariant held, the returned id is above every stored id |
| `Application.TarefaService.constructor` | internal/application/tarefa_service.go:15-19 | the service is bound to the repository it is given |
| `Application.TarefaService.ListarTarefas` | internal/application/tarefa_service.go:22-24 | returns exactly the repository's FindAll result: the store in insertion order |
| `Application.TarefaService.CriarTarefa` | internal/application/tarefa_service.go:27-45 | empty description: empty-description error before any repository call, so store and counter are unchanged and no id is used; otherwise returns the task (old counter, description), appends it to the store and advances the counter by one; when the invariant held, the new id is above every stored id; the service invariant is kept |
| `Application.TarefaService.AtualizarTarefa` | internal/application/tarefa_service.go:48-73 | empty description: error without lookup; missing id: not-found error; in both the store is unchanged; otherwise only the first task with that id gets the new description, keeping its id and position, and that task is returned; the counter is untouched; the service invariant is kept |
| `Application.TarefaService.ExcluirTarefa` | internal/application/tarefa_service.go:76-86 | missing id: not-found error with the store unchanged; otherwise the task is removed and the others keep their order; the counter is untouched; the service invariant is kept |
| `Application.CreateThenFind` | internal/application/tarefa_service.go:32-44 | after a successful creation, FindByID of the new id returns exactly the created task |
| `Application.CreateTwice` | internal/application/tarefa_service.go:33 | two creations with the same description both succeed and give two distinct tasks with increasing ids: creation is not idempotent |
| `Application.CreateDeleteCreate` | internal/application/tarefa_service.go:33 | create, delete that task, create again: the second id is above the first and above every id stored before, and the deleted id stays absent |
| `Application.DeleteTwice` | internal/application/tarefa_service.go:77-85 | deleting a stored id twice gives success, then not-found |

## Left out

- The TarefaRepository interface as a polymorphic type. It is not a trait: the project has one implementation. The service is bound to `InMemoryTarefaRepository` and is verified against that class's method contracts, never its bodies, so those contracts play the interface's part. The interface's result shapes are the type synonyms in `Domain`.
- Pointer sharing. In Go, tasks are `*Tarefa`. FindByID returns the stored pointer, and FindAll returns the repository's own slice, so later deletes can change what a caller holds. Here tasks are values and results are copies. In Go, AtualizarTarefa changes the stored record's description before its IsValid check and before Update runs. If that check could fail, the store would already be changed. The check cannot fail after the emptiness test (`Domain.NewTarefaValidIffNonEmpty`), so modelling the change as Update's replacement loses nothing observable.
- The storage-failure branches of the service. The in-memory FindAll and FindByID never return an error, and Save, Update and Delete cannot fail after the service's own checks. The service still has these branches and passes such errors on, but no state reaches them.
- Repository.InMemoryTarefaRepository.GetNextID: does not model Go's 64-bit `int` wrap-around of the counter. Integers here are unbounded.
- Error message texts. Only the error kinds are modelled. The HTTP layer tells them apart by comparing strings.
- The HTTP handler (routing, JSON, path parsing, status codes) and the program entry point (wiring, `ListenAndServe`). internal/interfaces/http/tarefa_handler.go and cmd/api/main.go are not part of this model.
- Concurrency. The Go code has no locking, and the model is sequential.
