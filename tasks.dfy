/** `TasksRepo.GetByCode`: a read-only lookup of a task by its code. */
module TasksRepo {
  import opened Models

  /** `SELECT ... FROM tasks WHERE code=$1`: no filter on `active`, and no row
      is reported as `NotFound`. */
  function GetByCode(tasks: map<string, Task>, code: string): (r: Result<Task>)
    requires TasksWellFormed(tasks)
    ensures r.Ok? <==> exists t :: t in tasks.Values && t.code == code
    ensures r.Err? ==> r.error == NotFound
    ensures r.Ok? ==> r.value in tasks.Values && r.value.code == code
  {
    if code in tasks then Ok(tasks[code]) else Err(NotFound)
  }

  /** An inactive task is found like an active one. */
  lemma GetByCodeIgnoresActive(tasks: map<string, Task>, t: Task)
    requires TasksWellFormed(tasks)
    requires t in tasks.Values && !t.active
    ensures GetByCode(tasks, t.code) == Ok(t)
  {
    var c :| c in tasks && tasks[c] == t;
  }
}
