/** The module-level `tasks` array and the code that changes it: the four
    simulated requests, and the event handlers that decide when to call them. */
module Store {
  import opened Text
  import opened Tasks
  import opened Handlers

  class TaskStore {
    /** The records, in display order. */
    var tasks: seq<Task>

    /** The page starts with an empty list. */
    constructor ()
      ensures tasks == []
    {
      tasks := [];
    }

    /** The simulated GET request: the list becomes the two seed records,
        whatever it held before. */
    method GetTasks()
      modifies this
      ensures tasks == [Task(1, "Learn Fetch API", false), Task(2, "Build a To-Do List", false)]
      ensures ValidList(tasks)
    {
      tasks := Seed();
      SeedValid();
    }

    /** The simulated POST request, with the clock reading that becomes the id
        passed in: one incomplete record is appended and the earlier ones stay
        as and where they were. */
    method PostTask(title: string, id: int)
      modifies this
      ensures tasks == old(tasks) + [NewTask(id, title)]
      ensures |tasks| == |old(tasks)| + 1
      ensures tasks[..|old(tasks)|] == old(tasks)
      ensures tasks[|tasks| - 1] == Task(id, title, false)
      ensures UniqueIds(tasks) <==> UniqueIds(old(tasks)) && !HasId(old(tasks), id)
    {
      AppendUnique(tasks, id, title);
      tasks := tasks + [NewTask(id, title)];
    }

    /** The simulated PUT request: the first record holding the id is merged
        with the patch; the list is untouched when no record holds it. */
    method PutTask(id: int, patch: Patch)
      modifies this
      ensures tasks == Updated(old(tasks), id, patch)
      ensures UniqueIds(tasks) <==> UniqueIds(old(tasks))
    {
      UpdatedUnique(tasks, id, patch);
      var i := FindIndex(tasks, id);
      if i != -1 {
        tasks := tasks[i := Merge(tasks[i], patch)];
      }
    }

    /** The simulated DELETE request: every record holding the id is dropped,
        the others keep their order. */
    method DeleteTask(id: int)
      modifies this
      ensures tasks == Without(old(tasks), id)
      ensures !HasId(tasks, id)
      ensures tasks == old(tasks) <==> !HasId(old(tasks), id)
      ensures UniqueIds(old(tasks)) ==> UniqueIds(tasks)
      ensures UniqueIds(old(tasks)) && HasId(old(tasks), id) ==> |tasks| == |old(tasks)| - 1
    {
      WithoutAbsent(tasks, id);
      if UniqueIds(tasks) {
        WithoutUnique(tasks, id);
        if HasId(tasks, id) {
          WithoutLength(tasks, id);
        }
      }
      tasks := Without(tasks, id);
      assert forall i :: 0 <= i < |tasks| ==> tasks[i] in tasks;
    }

    /** The add handler: the trimmed input is posted when it is not empty,
        with `now` standing for the clock reading. */
    method HandleAddTask(input: string, now: int)
      modifies this
      ensures tasks == AfterAdd(old(tasks), input, now)
      ensures ValidList(old(tasks)) && !HasId(old(tasks), now) ==> ValidList(tasks)
    {
      if ValidList(tasks) && !HasId(tasks, now) {
        AddKeepsValid(tasks, input, now);
      }
      var title := AddTitle(input);
      if title.Some? {
        PostTask(title.value, now);
      }
    }

    /** The checkbox handler: for a task that exists, its completion flag is
        flipped through a PUT request; an unknown id makes no request. */
    method HandleToggle(id: int)
      modifies this
      ensures tasks == AfterToggle(old(tasks), id)
      ensures ValidList(old(tasks)) ==> ValidList(tasks)
    {
      if ValidList(tasks) {
        ToggleKeepsValid(tasks, id);
      }
      var task := Find(tasks, id);
      if task.Some? {
        PutTask(id, Patch(None, Some(!task.value.completed)));
      }
    }

    /** The edit button handler for an existing task, given the prompt's answer
        (`None` when cancelled): the trimmed answer becomes the title when it is
        not empty and differs from the current title. */
    method HandleEdit(id: int, response: Option<string>)
      requires HasId(tasks, id)
      modifies this
      ensures tasks == AfterEdit(old(tasks), id, response)
      ensures ValidList(old(tasks)) ==> ValidList(tasks)
    {
      if ValidList(tasks) {
        EditKeepsValid(tasks, id, response);
      }
      var task := Find(tasks, id).value;
      if response.Some? {
        var title := Trim(response.value);
        if title != [] && title != task.title {
          PutTask(id, Patch(Some(title), None));
        }
      }
    }

    /** The delete button handler: it always issues the DELETE request for
        the button's id. */
    method HandleDelete(id: int)
      modifies this
      ensures tasks == Without(old(tasks), id)
      ensures ValidList(old(tasks)) ==> ValidList(tasks)
    {
      if ValidList(tasks) {
        DeleteKeepsValid(tasks, id);
      }
      DeleteTask(id);
    }
  }
}
