/** The page's mutable state (the todo store and the view state) and the
    event handlers that change it. Each handler runs as one atomic step; the
    outcome of every network call, the confirmation answer, today's date and
    the random id are parameters. */
module TodoApp {
  import opened JsStrings
  import opened JsArrays
  import opened Todos
  import opened FilterEngine

  /** Ids up to this one belong to the remote service and are deleted there. */
  const MaxRemoteId: int := 150

  /** The range `Math.floor(Math.random() * 100000 + 1000)` draws local ids from. */
  const MinLocalId: int := 1000
  const MaxLocalId: int := 100999

  /** Whether deleting `id` goes through the remote service first. */
  predicate NeedsRemoteDelete(id: int)
  {
    id <= MaxRemoteId
  }

  /** The load step's `data.todos.map(todo => ({ ...todo, date }))`: every
      fetched entry, in the service's order, dated `today`. */
  function Stamp(fetched: seq<RemoteTodo>, today: string): (r: seq<Todo>)
    ensures |r| == |fetched|
    ensures forall k :: 0 <= k < |r| ==>
              && r[k].id == fetched[k].id && r[k].text == fetched[k].text
              && r[k].completed == fetched[k].completed && r[k].userId == fetched[k].userId
              && r[k].date == today
  {
    if fetched == [] then []
    else
      var f := fetched[0];
      [Todo(f.id, f.text, f.completed, f.userId, today)] + Stamp(fetched[1..], today)
  }

  /** The record the add handler puts at the head of the store: the posted
      body `{ todo, completed: false, userId: 1 }` as the service echoes it,
      with the local id and the chosen date, or today when none was chosen. */
  function NewRecord(text: string, chosenDate: string, today: string, localId: int): (t: Todo)
    ensures t.id == localId && t.text == text && !t.completed && t.userId == 1
    ensures chosenDate != [] ==> t.date == chosenDate
    ensures chosenDate == [] ==> t.date == today
  {
    Todo(localId, text, false, 1, if chosenDate != [] then chosenDate else today)
  }

  /** A record created by the add handler is never deleted remotely. */
  lemma LocalRecordsStayLocal(text: string, chosenDate: string, today: string, localId: int)
    requires MinLocalId <= localId <= MaxLocalId
    ensures !NeedsRemoteDelete(NewRecord(text, chosenDate, today, localId).id)
  {
  }

  /** The delete handler's lookup `todos.find(t => t.id === id)` finds a
      record exactly when one carries the id, and what it finds carries it. */
  lemma FindByIdIffPresent(todos: seq<Todo>, id: int)
    ensures Find(todos, IdIs(id)).Some? <==> HasId(todos, id)
    ensures Find(todos, IdIs(id)).Some? ==> Find(todos, IdIs(id)).value.id == id
  {
  }

  /** Removing an id keeps every other record, in order and as often as the
      store holds it, and drops every record with that id; removing an
      absent id changes nothing, and with unique ids removing a present one
      drops exactly one record. */
  lemma RemovalKeepsOthers(todos: seq<Todo>, id: int)
    ensures var r := Filter(todos, IdIsNot(id));
            && IsSubsequence(r, todos)
            && (forall i :: 0 <= i < |r| ==> r[i].id != id)
            && (forall i :: 0 <= i < |todos| && todos[i].id != id ==> todos[i] in r)
            && (forall t :: multiset(r)[t] == if t.id != id then multiset(todos)[t] else 0)
            && (!HasId(todos, id) ==> r == todos)
            && (IdsUnique(todos) && HasId(todos, id) ==> |r| == |todos| - 1)
  {
    var r := Filter(todos, IdIsNot(id));
    assert forall t: Todo :: multiset(r)[t] == if t.id != id then multiset(todos)[t] else 0 by {
      FilterCounts(todos, IdIsNot(id));
    }
    assert !HasId(todos, id) ==> r == todos by {
      if !HasId(todos, id) {
        FilterKeepsAll(todos, IdIsNot(id));
      }
    }
    assert IdsUnique(todos) && HasId(todos, id) ==> |r| == |todos| - 1 by {
      if IdsUnique(todos) && HasId(todos, id) {
        var k :| 0 <= k < |todos| && todos[k].id == id;
        FilterDropsOne(todos, IdIsNot(id), k);
      }
    }
  }

  /** Removal keeps ids unique. */
  lemma {:induction false} RemovalKeepsIdsUnique(todos: seq<Todo>, id: int)
    requires IdsUnique(todos)
    ensures IdsUnique(Filter(todos, IdIsNot(id)))
  {
    if todos != [] {
      var head, tail := todos[0], todos[1..];
      assert todos == [head] + tail;
      assert IdsUnique(tail) by {
        forall i, j | 0 <= i < j < |tail| ensures tail[i].id != tail[j].id {
          assert tail[i] == todos[i + 1] && tail[j] == todos[j + 1];
        }
      }
      RemovalKeepsIdsUnique(tail, id);
      FilterPrepend(head, tail, IdIsNot(id));
      var rest := Filter(tail, IdIsNot(id));
      if head.id != id {
        assert !HasId(rest, head.id) by {
          forall j | 0 <= j < |rest| ensures rest[j].id != head.id {
            var m :| 0 <= m < |tail| && tail[m] == rest[j];
            assert todos[m + 1] == rest[j];
          }
        }
        AddKeepsIdsUnique(head, rest);
      }
    }
  }

  /** Adding a record whose id is not yet in the store keeps ids unique. The
      handler itself does not check this: its random id may collide. */
  lemma AddKeepsIdsUnique(t: Todo, todos: seq<Todo>)
    requires IdsUnique(todos) && !HasId(todos, t.id)
    ensures IdsUnique([t] + todos)
  {
    var s := [t] + todos;
    forall i, j | 0 <= i < j < |s| ensures s[i].id != s[j].id {
      if i == 0 {
        assert s[j] == todos[j - 1];
      } else {
        assert s[i] == todos[i - 1] && s[j] == todos[j - 1];
      }
    }
  }

  /** The page's state: the todo store and the view state. */
  class App {
    var todos: seq<Todo>
    var currentPage: int
    var searchText: string
    var fromDate: string
    var toDate: string

    /** Every handler keeps the page number at 1 or more. */
    ghost predicate Valid()
      reads this
    {
      currentPage >= 1
    }

    /** The state before the initial load: an empty store on page 1, no filters. */
    constructor ()
      ensures Valid()
      ensures todos == [] && currentPage == 1
      ensures searchText == [] && fromDate == [] && toDate == []
    {
      todos := [];
      currentPage := 1;
      searchText, fromDate, toDate := [], [], [];
    }

    /** The records `renderTodos` shows for the current state: at most a page
        of them, each from the store and passing every filter that is set. */
    function Shown(): (r: seq<Todo>)
      reads this
      requires Valid()
      ensures |r| <= PageSize
      ensures forall k :: 0 <= k < |r| ==> r[k] in todos && Visible(r[k], searchText, fromDate, toDate)
    {
      var r := ComputePage(todos, searchText, fromDate, toDate, currentPage);
      assert forall k :: 0 <= k < |r| ==> r[k] in todos && Visible(r[k], searchText, fromDate, toDate) by {
        forall k | 0 <= k < |r| ensures r[k] in todos && Visible(r[k], searchText, fromDate, toDate) {
          PageRecordIsVisible(todos, searchText, fromDate, toDate, currentPage, r[k]);
        }
      }
      r
    }

    /** The list `renderTodos` produces for the current state: the
        placeholder exactly when nothing is shown. */
    function Rendered(): (v: Listing)
      reads this
      requires Valid()
      ensures v == NoTasksFound <==> Shown() == []
    {
      Render(Shown())
    }

    /** The initial load. `fetched` is the service's list, or None when the
        request, its status or its body failed; then an error is shown and
        the store is kept. The page number and the filters are untouched. */
    method Load(fetched: Option<seq<RemoteTodo>>, today: string) returns (failed: bool)
      requires Valid()
      modifies this
      ensures Valid()
      ensures failed <==> fetched.None?
      ensures todos == if fetched.Some? then Stamp(fetched.value, today) else old(todos)
      ensures currentPage == old(currentPage)
      ensures searchText == old(searchText) && fromDate == old(fromDate) && toDate == old(toDate)
    {
      if fetched.None? {
        return true;
      }
      todos := Stamp(fetched.value, today);
      failed := false;
    }

    /** The add form's submit handler. Text that is empty after trimming does
        nothing and calls nothing. Otherwise the create request is sent; if
        it fails, an error is shown and nothing changes; if it succeeds, the
        new record goes to the head of the store and the page returns to 1. */
    method Add(input: string, chosenDate: string, today: string, createOk: bool, localId: int)
      returns (requested: bool, failed: bool)
      requires Valid()
      requires MinLocalId <= localId <= MaxLocalId
      modifies this
      ensures Valid()
      ensures requested <==> exists i :: 0 <= i < |input| && !IsWhitespace(input[i])
      ensures failed <==> requested && !createOk
      ensures requested && createOk ==>
                todos == [NewRecord(Trim(input), chosenDate, today, localId)] + old(todos)
                && currentPage == 1
      ensures !(requested && createOk) ==> todos == old(todos) && currentPage == old(currentPage)
      ensures searchText == old(searchText) && fromDate == old(fromDate) && toDate == old(toDate)
    {
      var newTask := Trim(input);
      TrimBlankIff(input);
      var date := if chosenDate != [] then chosenDate else today;
      if newTask == [] {
        return false, false;
      }
      requested := true;
      if !createOk {
        return requested, true;
      }
      todos := [Todo(localId, newTask, false, 1, date)] + todos;
      currentPage := 1;
      failed := false;
    }

    /** The delete button's handler. An id not in the store, or a declined
        confirmation, does nothing. Otherwise an id of the service's range is
        first deleted remotely, and a failure there shows an error and keeps
        the record; then every record with that id leaves the store. */
    method Delete(id: int, confirmed: bool, deleteOk: bool) returns (remoteCalled: bool, failed: bool)
      requires Valid()
      modifies this
      ensures Valid()
      ensures remoteCalled <==> HasId(old(todos), id) && confirmed && NeedsRemoteDelete(id)
      ensures failed <==> remoteCalled && !deleteOk
      ensures HasId(old(todos), id) && confirmed && !failed ==> todos == Filter(old(todos), IdIsNot(id))
      ensures !(HasId(old(todos), id) && confirmed && !failed) ==> todos == old(todos)
      ensures currentPage == old(currentPage)
      ensures searchText == old(searchText) && fromDate == old(fromDate) && toDate == old(toDate)
    {
      var found := Find(todos, IdIs(id));
      if found.None? {
        return false, false;
      }
      if !confirmed {
        return false, false;
      }
      remoteCalled, failed := false, false;
      if id <= MaxRemoteId {
        remoteCalled := true;
        if !deleteOk {
          return remoteCalled, true;
        }
      }
      todos := Filter(todos, IdIsNot(id));
    }

    /** "Previous": one page back, only from above page 1. */
    method Prev()
      requires Valid()
      modifies this
      ensures Valid()
      ensures old(currentPage) > 1 ==> currentPage == old(currentPage) - 1
      ensures old(currentPage) <= 1 ==> currentPage == old(currentPage)
      ensures todos == old(todos)
      ensures searchText == old(searchText) && fromDate == old(fromDate) && toDate == old(toDate)
    {
      if currentPage > 1 {
        currentPage := currentPage - 1;
      }
    }

    /** "Next": one page on, only while below the page count of the whole,
        unfiltered store. */
    method Next()
      requires Valid()
      modifies this
      ensures Valid()
      ensures old(currentPage) < PageCount(|todos|) ==> currentPage == old(currentPage) + 1
      ensures old(currentPage) >= PageCount(|todos|) ==> currentPage == old(currentPage)
      ensures currentPage <= PageCount(|todos|) || currentPage == old(currentPage)
      ensures todos == old(todos)
      ensures searchText == old(searchText) && fromDate == old(fromDate) && toDate == old(toDate)
    {
      var totalPages := PageCount(|todos|);
      if currentPage < totalPages {
        currentPage := currentPage + 1;
      }
    }

    /** Typing in the search field: new search text, back to page 1. */
    method SearchInput(text: string)
      requires Valid()
      modifies this
      ensures Valid()
      ensures searchText == text && currentPage == 1
      ensures todos == old(todos) && fromDate == old(fromDate) && toDate == old(toDate)
    {
      searchText := text;
      currentPage := 1;
    }

    /** Changing the "from" date: new lower bound, back to page 1. */
    method FromDateChange(date: string)
      requires Valid()
      modifies this
      ensures Valid()
      ensures fromDate == date && currentPage == 1
      ensures todos == old(todos) && searchText == old(searchText) && toDate == old(toDate)
    {
      fromDate := date;
      currentPage := 1;
    }

    /** Changing the "to" date: new upper bound, back to page 1. */
    method ToDateChange(date: string)
      requires Valid()
      modifies this
      ensures Valid()
      ensures toDate == date && currentPage == 1
      ensures todos == old(todos) && searchText == old(searchText) && fromDate == old(fromDate)
    {
      toDate := date;
      currentPage := 1;
    }
  }

  /** A client of the handlers' contracts: with no filters, adding "Buy milk"
      without a date on 2024-01-01 dates it that day and shows it first on
      page 1; deleting it later never reaches the remote service. */
  method BuyMilk(app: App, localId: int)
    requires app.Valid()
    requires app.searchText == [] && app.fromDate == [] && app.toDate == []
    requires MinLocalId <= localId <= MaxLocalId
    modifies app
  {
    var requested, failed := app.Add("  Buy milk ", [], "2024-01-01", true, localId);
    assert !IsWhitespace("  Buy milk "[2]);
    assert requested && !failed;
    var added := NewRecord(Trim("  Buy milk "), [], "2024-01-01", localId);
    assert app.todos[0] == added && added.date == "2024-01-01";
    PrependedRecordLeadsFirstPage(added, old(app.todos), [], [], []);
    assert app.Shown()[0] == added;
    var remoteCalled, _ := app.Delete(localId, true, false);
    assert !remoteCalled;
  }
}
