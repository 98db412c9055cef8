/** What `renderTodos` shows: the store filtered by search text and date
    range, cut into pages of ten, and the choice between those rows and the
    "No tasks found." placeholder. Every function here is pure; the handlers
    in module TodoApp call them on the current state. */
module FilterEngine {
  import opened JsStrings
  import opened JsArrays
  import opened Todos
  import opened IsoDates

  /** Records per page. */
  const PageSize: nat := 10

  /** The search stage, `todo.todo.toLowerCase().includes(search)`, for an
      already lowered `search`. */
  function MatchesSearch(search: string): Todo -> bool
  {
    (t: Todo) => Includes(ToLower(t.text), search)
  }

  /** A record passes the search stage exactly when the lowered search text
      occurs somewhere in its lowered text. */
  lemma MatchesSearchIffOccurs(search: string, t: Todo)
    ensures MatchesSearch(search)(t) <==> exists i :: OccursAt(ToLower(t.text), search, i)
  {
    var hay := ToLower(t.text);
    var b := Includes(hay, search);
    assert b <==> exists i :: OccursAt(hay, search, i);
    assert MatchesSearch(search)(t) == b;
    assert b ==> exists i :: OccursAt(ToLower(t.text), search, i);
    assert (exists i :: OccursAt(ToLower(t.text), search, i)) ==> b;
  }

  /** The lower date bound, `todo.date >= from`: the date is `from` or comes
      after it, and for ISO dates it is on or after `from` in the calendar. */
  function OnOrAfter(from: string): (p: Todo -> bool)
    ensures forall t :: p(t) <==> t.date == from || Less(from, t.date)
    ensures forall t: Todo :: IsIsoDate(from) && IsIsoDate(t.date) ==> (p(t) <==> DateKey(from) <= DateKey(t.date))
  {
    assert forall t: Todo :: IsIsoDate(from) && IsIsoDate(t.date) ==>
             (AtMost(from, t.date) <==> DateKey(from) <= DateKey(t.date)) by {
      forall t: Todo | IsIsoDate(from) && IsIsoDate(t.date)
        ensures AtMost(from, t.date) <==> DateKey(from) <= DateKey(t.date)
      {
        IsoDateAtMost(from, t.date);
      }
    }
    (t: Todo) => AtMost(from, t.date)
  }

  /** The upper date bound, `todo.date <= to`: the date is `to` or comes
      before it, and for ISO dates it is on or before `to` in the calendar. */
  function OnOrBefore(to: string): (p: Todo -> bool)
    ensures forall t :: p(t) <==> t.date == to || Less(t.date, to)
    ensures forall t: Todo :: IsIsoDate(to) && IsIsoDate(t.date) ==> (p(t) <==> DateKey(t.date) <= DateKey(to))
  {
    assert forall t: Todo :: IsIsoDate(to) && IsIsoDate(t.date) ==>
             (AtMost(t.date, to) <==> DateKey(t.date) <= DateKey(to)) by {
      forall t: Todo | IsIsoDate(to) && IsIsoDate(t.date)
        ensures AtMost(t.date, to) <==> DateKey(t.date) <= DateKey(to)
      {
        IsoDateAtMost(t.date, to);
      }
    }
    (t: Todo) => AtMost(t.date, to)
  }

  /** The search stage with "unset" folded in: an empty (lowered) search
      text lets every record through. */
  predicate PassesSearch(t: Todo, search: string)
  {
    search == [] || Includes(ToLower(t.text), search)
  }

  /** The lower bound with "unset" folded in. */
  predicate PassesFrom(t: Todo, from: string)
  {
    from == [] || AtMost(from, t.date)
  }

  /** The upper bound with "unset" folded in. */
  predicate PassesTo(t: Todo, to: string)
  {
    to == [] || AtMost(t.date, to)
  }

  /** A record passes every filter that is set; an empty search text or an
      empty date field sets nothing. */
  predicate Visible(t: Todo, searchInput: string, from: string, to: string)
  {
    PassesSearch(t, ToLower(searchInput)) && PassesFrom(t, from) && PassesTo(t, to)
  }

  function VisibleFilter(searchInput: string, from: string, to: string): Todo -> bool
  {
    (t: Todo) => Visible(t, searchInput, from, to)
  }

  /** The three filter stages of `renderTodos`, each applied only when its
      input is non-empty, in the source's order. */
  function Filtered(todos: seq<Todo>, searchInput: string, from: string, to: string): seq<Todo>
  {
    var search := ToLower(searchInput);
    var bySearch := if search != [] then Filter(todos, MatchesSearch(search)) else todos;
    var byFrom := if from != [] then Filter(bySearch, OnOrAfter(from)) else bySearch;
    if to != [] then Filter(byFrom, OnOrBefore(to)) else byFrom
  }

  /** A stage applied only when `enabled` is the filter by "not enabled, or `p`". */
  lemma GuardedStage(xs: seq<Todo>, enabled: bool, p: Todo -> bool, g: Todo -> bool)
    requires forall t :: g(t) == (!enabled || p(t))
    ensures (if enabled then Filter(xs, p) else xs) == Filter(xs, g)
  {
    if enabled {
      FilterSamePredicate(xs, p, g);
    } else {
      FilterKeepsAll(xs, g);
    }
  }

  /** The stages combine with AND: the filtered sequence is the store filtered
      once by `Visible`. */
  lemma FilteredIsConjunction(todos: seq<Todo>, searchInput: string, from: string, to: string)
    ensures Filtered(todos, searchInput, from, to) == Filter(todos, VisibleFilter(searchInput, from, to))
  {
    var search := ToLower(searchInput);
    var s := (t: Todo) => PassesSearch(t, search);
    var a := (t: Todo) => PassesFrom(t, from);
    var b := (t: Todo) => PassesTo(t, to);
    var sa := (t: Todo) => PassesSearch(t, search) && PassesFrom(t, from);
    var bySearch := if search != [] then Filter(todos, MatchesSearch(search)) else todos;
    var byFrom := if from != [] then Filter(bySearch, OnOrAfter(from)) else bySearch;
    GuardedStage(todos, search != [], MatchesSearch(search), s);
    GuardedStage(bySearch, from != [], OnOrAfter(from), a);
    GuardedStage(byFrom, to != [], OnOrBefore(to), b);
    FilterTwice(todos, s, a, sa);
    FilterTwice(todos, sa, b, VisibleFilter(searchInput, from, to));
  }

  /** The filtered sequence is an order-preserving subsequence of the store
      holding exactly its visible records, each as often as the store does. */
  lemma FilteredKeepsVisibleInOrder(todos: seq<Todo>, searchInput: string, from: string, to: string)
    ensures var f := Filtered(todos, searchInput, from, to);
            && IsSubsequence(f, todos)
            && (forall i :: 0 <= i < |f| ==> f[i] in todos && Visible(f[i], searchInput, from, to))
            && (forall i :: 0 <= i < |todos| && Visible(todos[i], searchInput, from, to) ==> todos[i] in f)
            && (forall t :: multiset(f)[t] == if Visible(t, searchInput, from, to) then multiset(todos)[t] else 0)
  {
    FilteredIsConjunction(todos, searchInput, from, to);
    FilterCounts(todos, VisibleFilter(searchInput, from, to));
  }

  /** `renderTodos`' page: the filtered records in the window
      `[(page - 1) * PageSize, page * PageSize)`. For a page of 1 or more it
      is exactly the part of that window that exists, so a window past the
      end gives an empty page. */
  function ComputePage(todos: seq<Todo>, searchInput: string, from: string, to: string, page: int): (r: seq<Todo>)
    ensures |r| <= PageSize
    ensures page >= 1 ==>
              var f := Filtered(todos, searchInput, from, to);
              var start := (page - 1) * PageSize;
              && |r| == (if start >= |f| then 0 else if |f| - start < PageSize then |f| - start else PageSize)
              && forall k :: 0 <= k < |r| ==> r[k] == f[start + k]
  {
    var f := Filtered(todos, searchInput, from, to);
    var start := (page - 1) * PageSize;
    assert page >= 1 ==> 0 <= start <= start + PageSize;
    Slice(f, start, start + PageSize)
  }

  /** With a search text set, every record on the page contains it, both
      sides lowered. */
  lemma PageMatchesSearch(todos: seq<Todo>, searchInput: string, from: string, to: string, page: int, t: Todo)
    requires page >= 1
    requires ToLower(searchInput) != []
    requires t in ComputePage(todos, searchInput, from, to, page)
    ensures t in todos
    ensures Includes(ToLower(t.text), ToLower(searchInput))
  {
    PageRecordIsVisible(todos, searchInput, from, to, page, t);
  }

  /** Every record on the page lies within the date bounds that are set:
      `from <= date` and `date <= to` in string order. */
  lemma PageWithinDates(todos: seq<Todo>, searchInput: string, from: string, to: string, page: int, t: Todo)
    requires page >= 1
    requires t in ComputePage(todos, searchInput, from, to, page)
    ensures t in todos
    ensures from != [] ==> AtMost(from, t.date)
    ensures to != [] ==> AtMost(t.date, to)
  {
    PageRecordIsVisible(todos, searchInput, from, to, page, t);
  }

  lemma PageRecordIsVisible(todos: seq<Todo>, searchInput: string, from: string, to: string, page: int, t: Todo)
    requires page >= 1
    requires t in ComputePage(todos, searchInput, from, to, page)
    ensures t in todos && Visible(t, searchInput, from, to)
  {
    var f := Filtered(todos, searchInput, from, to);
    var r := ComputePage(todos, searchInput, from, to, page);
    FilteredKeepsVisibleInOrder(todos, searchInput, from, to);
    var k :| 0 <= k < |r| && r[k] == t;
    assert t == f[(page - 1) * PageSize + k];
  }

  /** For ISO dates the string bounds are calendar bounds: every record on
      the page falls on or between the dates chosen. */
  lemma PageWithinCalendarRange(todos: seq<Todo>, searchInput: string, from: string, to: string, page: int, t: Todo)
    requires page >= 1
    requires IsIsoDate(from) && IsIsoDate(to) && IsIsoDate(t.date)
    requires t in ComputePage(todos, searchInput, from, to, page)
    ensures DateKey(from) <= DateKey(t.date) <= DateKey(to)
  {
    PageRecordIsVisible(todos, searchInput, from, to, page, t);
    IsoDateAtMost(from, t.date);
    IsoDateAtMost(t.date, to);
  }

  /** When both date bounds are set, a non-empty page means the bounds are in
      order: `from <= to`. */
  lemma NonEmptyPageOrdersBounds(todos: seq<Todo>, searchInput: string, from: string, to: string, page: int)
    requires page >= 1 && from != [] && to != []
    requires ComputePage(todos, searchInput, from, to, page) != []
    ensures AtMost(from, to)
  {
    var t := ComputePage(todos, searchInput, from, to, page)[0];
    PageRecordIsVisible(todos, searchInput, from, to, page, t);
    AtMostTotalOrder(from, t.date, to);
  }

  /** `Math.ceil(n / pageSize)`: the number of pages `n` records fill. */
  function PageCount(n: nat): (c: nat)
    ensures n <= c * PageSize
    ensures c > 0 ==> (c - 1) * PageSize < n
  {
    (n + PageSize - 1) / PageSize
  }

  /** Without search text or dates, every page from 1 to the page count of
      the store holds at least one record, starting at `(page - 1) * PageSize`. */
  lemma UnfilteredPagesUpToCountAreNonEmpty(todos: seq<Todo>, page: int)
    requires 1 <= page <= PageCount(|todos|)
    ensures ComputePage(todos, [], [], [], page) != []
    ensures ComputePage(todos, [], [], [], page)[0] == todos[(page - 1) * PageSize]
  {
    FilteredIsConjunction(todos, [], [], []);
    FilterKeepsAll(todos, VisibleFilter([], [], []));
  }

  /** The "next" bound counts the unfiltered store, so under a filter it can
      admit a page that the filter leaves empty. */
  lemma NextBoundAdmitsEmptyFilteredPage(todos: seq<Todo>, searchInput: string, from: string, to: string, page: int)
    requires 1 <= page < PageCount(|todos|)
    requires |Filtered(todos, searchInput, from, to)| <= page * PageSize
    ensures ComputePage(todos, searchInput, from, to, page + 1) == []
  {
  }

  /** A concrete case: eleven records, a search matching only the first. The
      store has two pages, yet page 2 shows nothing. */
  lemma ElevenRecordsOneMatch(a: Todo, rest: seq<Todo>)
    requires |rest| == 10
    requires Includes(ToLower(a.text), "milk")
    requires forall i :: 0 <= i < |rest| ==> !Includes(ToLower(rest[i].text), "milk")
    ensures PageCount(|[a] + rest|) == 2
    ensures ComputePage([a] + rest, "milk", [], [], 1) == [a]
    ensures ComputePage([a] + rest, "milk", [], [], 2) == []
  {
    var todos := [a] + rest;
    assert ToLower("milk") == "milk";
    FilteredIsConjunction(todos, "milk", [], []);
    FilterPrepend(a, rest, VisibleFilter("milk", [], []));
    FilterDropsAll(rest, VisibleFilter("milk", [], []));
    assert Filtered(todos, "milk", [], []) == [a];
  }

  /** Twelve records, no filters: page 1 shows the first ten, and page 2,
      which "next" reaches, the last two. */
  lemma TwelveRecordsPaging(todos: seq<Todo>)
    requires |todos| == 12
    ensures ComputePage(todos, [], [], [], 1) == todos[..10]
    ensures PageCount(|todos|) == 2
    ensures ComputePage(todos, [], [], [], 2) == todos[10..]
  {
    FilteredIsConjunction(todos, [], [], []);
    FilterKeepsAll(todos, VisibleFilter([], [], []));
  }

  /** A record put at the head of the store and passing the filters is the
      first record on page 1. */
  lemma PrependedRecordLeadsFirstPage(t: Todo, todos: seq<Todo>, searchInput: string, from: string, to: string)
    requires Visible(t, searchInput, from, to)
    ensures ComputePage([t] + todos, searchInput, from, to, 1) != []
    ensures ComputePage([t] + todos, searchInput, from, to, 1)[0] == t
  {
    FilteredIsConjunction([t] + todos, searchInput, from, to);
    FilterPrepend(t, todos, VisibleFilter(searchInput, from, to));
  }

  /** One displayed row: the task text, its date and the id its delete
      button passes to the delete handler. */
  datatype Row = Row(id: int, text: string, date: string)

  /** The list `renderTodos` leaves on the page. */
  datatype Listing = NoTasksFound | Rows(rows: seq<Row>)

  /** An empty page renders the single "No tasks found." placeholder;
      otherwise one row per record, in page order. */
  function Render(page: seq<Todo>): (v: Listing)
    ensures v == NoTasksFound <==> page == []
    ensures v.Rows? ==> |v.rows| == |page|
                        && forall k :: 0 <= k < |page| ==>
                             v.rows[k].id == page[k].id && v.rows[k].text == page[k].text
                             && v.rows[k].date == page[k].date
  {
    if page == [] then NoTasksFound
    else Rows(seq(|page|, k requires 0 <= k < |page| => Row(page[k].id, page[k].text, page[k].date)))
  }
}
