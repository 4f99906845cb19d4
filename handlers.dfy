/** The decisions the add, toggle and edit event handlers take before they
    call the store, and the store invariant those decisions keep. */
module Handlers {
  import opened Text
  import opened Tasks

  /** A title as the add handler lets it into the store: non-empty and trimmed. */
  predicate WellFormedTitle(s: string) {
    s != [] && Trimmed(s)
  }

  /** The invariant of the store: distinct ids and well-formed titles. */
  predicate ValidList(ts: seq<Task>) {
    UniqueIds(ts) && forall i :: 0 <= i < |ts| ==> WellFormedTitle(ts[i].title)
  }

  /** The add handler: the trimmed input is posted when it is non-empty, and
      nothing is posted when the input is all whitespace. */
  function AddTitle(input: string): (r: Option<string>)
    ensures r.None? <==> AllWhitespace(input)
    ensures r.Some? ==> WellFormedTitle(r.value) && r.value == Trim(input)
  {
    var title := Trim(input);
    if title != [] then Some(title) else None
  }

  /** The list after the add handler ran with `now` as the clock reading. */
  function AfterAdd(ts: seq<Task>, input: string, now: int): (r: seq<Task>)
    ensures AllWhitespace(input) ==> r == ts
    ensures !AllWhitespace(input) ==> r == ts + [Task(now, Trim(input), false)]
  {
    match AddTitle(input)
    case None => ts
    case Some(title) => ts + [NewTask(now, title)]
  }

  /** The toggle handler: for an existing task the patch flips its
      completion flag and supplies nothing else; for an unknown id no
      request is made. */
  function TogglePatch(ts: seq<Task>, id: int): (r: Option<Patch>)
    ensures r.None? <==> !HasId(ts, id)
    ensures r.Some? ==>
      r.value.title.None? && r.value.completed == Some(!ts[FindIndex(ts, id)].completed)
  {
    match Find(ts, id)
    case None => None
    case Some(t) => Some(Patch(None, Some(!t.completed)))
  }

  /** The list after the toggle handler ran on `id`. */
  function AfterToggle(ts: seq<Task>, id: int): (r: seq<Task>)
    ensures |r| == |ts| && Ids(r) == Ids(ts)
    ensures !HasId(ts, id) ==> r == ts
    ensures HasId(ts, id) ==>
      var i := FindIndex(ts, id);
      r[i].title == ts[i].title && r[i].completed == !ts[i].completed
      && forall j :: 0 <= j < |ts| && j != i ==> r[j] == ts[j]
  {
    match TogglePatch(ts, id)
    case None => ts
    case Some(p) => Updated(ts, id, p)
  }

  /** The edit handler with the guard as the source writes it: the prompt's
      answer (`None` when cancelled) must be a non-empty string, and its
      trimmed form must differ from the current title. The untrimmed answer
      is what is tested for emptiness. */
  function EditPatchAsWritten(title: string, response: Option<string>): (r: Option<Patch>)
    ensures r.Some? <==> response.Some? && response.value != [] && Trim(response.value) != title
    ensures r.Some? ==> r.value == Patch(Some(Trim(response.value)), None)
  {
    match response
    case None => None
    case Some(s) => if s != [] && Trim(s) != title then Some(Patch(Some(Trim(s)), None)) else None
  }

  /** The edit handler with the guard it evidently intends: it is the trimmed
      answer that must be non-empty, so the stored title stays well formed. */
  function EditPatch(title: string, response: Option<string>): (r: Option<Patch>)
    ensures r.Some? <==> response.Some? && !AllWhitespace(response.value) && Trim(response.value) != title
    ensures r.Some? ==> r.value.completed.None? && r.value.title.Some?
    ensures r.Some? ==> r.value == Patch(Some(Trim(response.value)), None)
    ensures r.Some? ==> WellFormedTitle(r.value.title.value) && r.value.title.value != title
  {
    match response
    case None => None
    case Some(s) =>
      var t := Trim(s);
      if t != [] && t != title then Some(Patch(Some(t), None)) else None
  }

  /** The list after the edit handler ran on the existing task `id`. */
  function AfterEdit(ts: seq<Task>, id: int, response: Option<string>): (r: seq<Task>)
    requires HasId(ts, id)
    ensures |r| == |ts| && Ids(r) == Ids(ts)
    ensures var i := FindIndex(ts, id);
      r[i].completed == ts[i].completed
      && (r[i].title == ts[i].title || WellFormedTitle(r[i].title))
      && forall j :: 0 <= j < |ts| && j != i ==> r[j] == ts[j]
    ensures var i := FindIndex(ts, id);
      r[i].title != ts[i].title <==>
        response.Some? && !AllWhitespace(response.value) && Trim(response.value) != ts[i].title
    ensures var i := FindIndex(ts, id);
      r[i].title != ts[i].title ==> r[i].title == Trim(response.value)
  {
    match EditPatch(ts[FindIndex(ts, id)].title, response)
    case None => ts
    case Some(p) => Updated(ts, id, p)
  }

  /** The two edit guards differ only on a non-empty, all-whitespace answer,
      which the written guard turns into an empty title. */
  lemma EditGuardsDiffer(title: string, response: Option<string>)
    ensures EditPatchAsWritten(title, response) != EditPatch(title, response) <==>
      response.Some? && response.value != [] && AllWhitespace(response.value) && title != []
    ensures EditPatchAsWritten(title, response) != EditPatch(title, response) ==>
      EditPatchAsWritten(title, response) == Some(Patch(Some([]), None))
  {
  }

  /** An input that shows the written edit guard breaking the store invariant:
      answering the prompt with a single space blanks the first seed task's title. */
  lemma EditAsWrittenBlanksTitle()
    ensures EditPatchAsWritten(Seed()[0].title, Some(" ")) == Some(Patch(Some([]), None))
    ensures ValidList(Seed())
    ensures !ValidList(Updated(Seed(), 1, Patch(Some([]), None)))
  {
    assert AllWhitespace(" ");
    SeedValid();
    var r := Updated(Seed(), 1, Patch(Some([]), None));
    assert FindIndex(Seed(), 1) == 0;
    assert !WellFormedTitle(r[0].title);
  }

  /** Two ways of telling the first index of an id agree when the ids do. */
  lemma {:induction false} FindIndexByIds(ts: seq<Task>, us: seq<Task>, id: int)
    requires Ids(ts) == Ids(us)
    ensures FindIndex(ts, id) == FindIndex(us, id)
  {
    var i, k := FindIndex(ts, id), FindIndex(us, id);
    assert |ts| == |Ids(ts)| == |us|;
    assert forall j :: 0 <= j < |ts| ==> ts[j].id == Ids(ts)[j] == Ids(us)[j] == us[j].id;
    assert i != -1 ==> HasId(us, id);
    assert k != -1 ==> HasId(ts, id);
  }

  /** Toggling a task twice restores the list. */
  lemma ToggleTwice(ts: seq<Task>, id: int)
    ensures AfterToggle(AfterToggle(ts, id), id) == ts
  {
    if HasId(ts, id) {
      var p := TogglePatch(ts, id).value;
      var us := Updated(ts, id, p);
      FindIndexByIds(ts, us, id);
      var i := FindIndex(ts, id);
      assert HasId(us, id) by { assert us[i].id == id; }
      var q := TogglePatch(us, id).value;
      var vs := Updated(us, id, q);
      assert vs[i] == ts[i];
      assert vs == ts;
    }
  }

  /** Loading the seed list establishes the invariant. */
  lemma SeedValid()
    ensures ValidList(Seed())
  {
    SeedContents();
  }

  /** Appending a well-formed record with a fresh id keeps the invariant. */
  lemma AppendKeepsValid(ts: seq<Task>, id: int, title: string)
    requires ValidList(ts) && !HasId(ts, id) && WellFormedTitle(title)
    ensures ValidList(ts + [NewTask(id, title)])
  {
    AppendUnique(ts, id, title);
  }

  /** The add handler keeps the invariant when the clock reading is a fresh id. */
  lemma AddKeepsValid(ts: seq<Task>, input: string, now: int)
    requires ValidList(ts) && !HasId(ts, now)
    ensures ValidList(AfterAdd(ts, input, now))
  {
    var added := AddTitle(input);
    if added.Some? {
      AppendKeepsValid(ts, now, added.value);
    }
  }

  /** The toggle handler keeps the invariant. */
  lemma ToggleKeepsValid(ts: seq<Task>, id: int)
    requires ValidList(ts)
    ensures ValidList(AfterToggle(ts, id))
  {
    match TogglePatch(ts, id)
    case None =>
    case Some(p) => UpdatedUnique(ts, id, p);
  }

  /** The edit handler, with the intended guard, keeps the invariant. */
  lemma EditKeepsValid(ts: seq<Task>, id: int, response: Option<string>)
    requires ValidList(ts) && HasId(ts, id)
    ensures ValidList(AfterEdit(ts, id, response))
  {
    match EditPatch(ts[FindIndex(ts, id)].title, response)
    case None =>
    case Some(p) => UpdatedUnique(ts, id, p);
  }

  /** Deleting keeps the invariant. */
  lemma DeleteKeepsValid(ts: seq<Task>, id: int)
    requires ValidList(ts)
    ensures ValidList(Without(ts, id))
  {
    WithoutUnique(ts, id);
    var r := Without(ts, id);
    forall i | 0 <= i < |r| ensures WellFormedTitle(r[i].title) {
      assert r[i] in ts;
    }
  }
}
