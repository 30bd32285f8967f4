/** The application session around the reducer: the current list, the id
    counter that mints a number for every new item, and the text waiting in
    the input box. */
module TodoSession {
  import opened TodoReducer
  import opened Text

  /** Ids strictly increase along the list. */
  ghost predicate IdsIncreasing(s: seq<Todo>) {
    forall i, j :: 0 <= i < j < |s| ==> s[i].id < s[j].id
  }

  /** No two items share an id. */
  ghost predicate IdsDistinct(s: seq<Todo>) {
    forall i, j :: 0 <= i < |s| && 0 <= j < |s| && i != j ==> s[i].id != s[j].id
  }

  /** Every id lies in `[0, bound)`. */
  ghost predicate IdsBelow(s: seq<Todo>, bound: int) {
    forall i :: 0 <= i < |s| ==> 0 <= s[i].id < bound
  }

  lemma IncreasingIdsAreDistinct(s: seq<Todo>)
    requires IdsIncreasing(s)
    ensures IdsDistinct(s)
  {
    forall i, j | 0 <= i < |s| && 0 <= j < |s| && i != j
      ensures s[i].id != s[j].id
    {
      if i < j { assert s[i].id < s[j].id; } else { assert s[j].id < s[i].id; }
    }
  }

  /** CREATE with an id above every id in the list keeps the ids increasing
      and below the next counter value. */
  lemma CreatePreservesOrder(s: seq<Todo>, id: int, content: string)
    requires IdsIncreasing(s) && IdsBelow(s, id) && 0 <= id
    ensures IdsIncreasing(Reduce(s, Create(id, content)))
    ensures IdsBelow(Reduce(s, Create(id, content)), id + 1)
  {
    var r := Reduce(s, Create(id, content));
    assert forall i :: 0 <= i < |s| ==> r[i] == s[i];
  }

  /** Every id is above `lo`. */
  ghost predicate IdsAbove(s: seq<Todo>, lo: int) {
    forall i :: 0 <= i < |s| ==> lo < s[i].id
  }

  /** Filtering keeps a lower bound on the ids: it only drops items. */
  lemma {:induction false} RemoveIdKeepsAbove(s: seq<Todo>, id: int, lo: int)
    requires IdsAbove(s, lo)
    ensures IdsAbove(RemoveId(s, id), lo)
  {
    if s != [] {
      RemoveIdKeepsAbove(s[1..], id, lo);
    }
  }

  /** Filtering keeps the ids increasing: it only drops items. */
  lemma {:induction false} RemoveIdPreservesOrder(s: seq<Todo>, id: int)
    requires IdsIncreasing(s)
    ensures IdsIncreasing(RemoveId(s, id))
  {
    if s != [] {
      var tail := s[1..];
      assert IdsIncreasing(tail) by {
        forall i, j | 0 <= i < j < |tail| ensures tail[i].id < tail[j].id {
          assert tail[i] == s[i + 1] && tail[j] == s[j + 1];
        }
      }
      assert IdsAbove(tail, s[0].id) by {
        forall i | 0 <= i < |tail| ensures s[0].id < tail[i].id {
          assert tail[i] == s[i + 1];
        }
      }
      RemoveIdPreservesOrder(tail, id);
      RemoveIdKeepsAbove(tail, id, s[0].id);
      var rest := RemoveId(tail, id);
      if s[0].id != id {
        var r := [s[0]] + rest;
        forall i, j | 0 <= i < j < |r| ensures r[i].id < r[j].id {
          assert r[j] == rest[j - 1];
          if 0 < i { assert r[i] == rest[i - 1]; }
        }
      }
    }
  }

  /** DELETE keeps the session invariant on the list. */
  lemma DeletePreservesOrder(s: seq<Todo>, id: int, bound: int)
    requires IdsIncreasing(s) && IdsBelow(s, bound)
    ensures IdsIncreasing(Reduce(s, Delete(id)))
    ensures IdsBelow(Reduce(s, Delete(id)), bound)
  {
    RemoveIdPreservesOrder(s, id);
    RemoveIdMembers(s, id);
    var r := Reduce(s, Delete(id));
    forall i | 0 <= i < |r| ensures 0 <= r[i].id < bound {
      assert r[i] in r;
      var m :| 0 <= m < |s| && s[m] == r[i];
    }
  }

  /** One running instance of the application. */
  class Session {
    /** The reducer's state: the list on screen. */
    var todos: seq<Todo>
    /** The id counter: the id the next added item receives. */
    var nextId: int
    /** The text in the input box, not yet added. */
    var text: string
    /** Every id the counter has handed out, including those of items since
        deleted. `Valid` ties it to the counter's range `[0, nextId)`; it only
        names that range, so that contracts can say an id was never issued. */
    ghost var issued: set<int>

    /** Ids in the list increase along it, and every one of them was issued;
        the issued ids are exactly those below the counter. */
    ghost predicate Valid()
      reads this
    {
      0 <= nextId
      && (forall x :: x in issued <==> 0 <= x < nextId)
      && IdsIncreasing(todos) && IdsBelow(todos, nextId)
    }

    /** A new session: no items, the counter at 0, the input box empty. */
    constructor ()
      ensures Valid()
      ensures todos == [] && nextId == 0 && text == "" && issued == {}
    {
      todos, nextId, text := [], 0, "";
      issued := {};
    }

    /** Typing into the input box replaces the pending text. */
    method SetText(s: string)
      requires Valid()
      modifies this
      ensures Valid()
      ensures text == s
      ensures todos == old(todos) && nextId == old(nextId) && issued == old(issued)
    {
      text := s;
    }

    /** The add button. Blank text changes nothing; otherwise the text is
        appended under the current counter value, the counter moves on by one
        and the input box is cleared. The stored content is the text as
        typed, surrounding whitespace included. */
    method HandleAdd()
      requires Valid()
      modifies this
      ensures Valid()
      ensures IsBlank(old(text)) ==>
        todos == old(todos) && nextId == old(nextId) && text == old(text)
        && issued == old(issued)
      ensures !IsBlank(old(text)) ==>
        todos == Reduce(old(todos), Create(old(nextId), old(text)))
        && nextId == old(nextId) + 1 && text == ""
        && old(nextId) !in old(issued) && issued == old(issued) + {old(nextId)}
    {
      TrimEmptyIffBlank(text);
      if Trim(text) == "" {
        return;
      }
      var id := nextId;
      nextId := nextId + 1;
      issued := issued + {id};
      CreatePreservesOrder(todos, id, text);
      todos := Reduce(todos, Create(id, text));
      text := "";
    }

    /** The delete button of the item with id `id`. The counter and the
        issued ids stay as they are, so the id is never minted again. When
        exactly one item has the id, just that item goes. */
    method Delete(id: int)
      requires Valid()
      modifies this
      ensures Valid()
      ensures todos == Reduce(old(todos), TodoReducer.Delete(id))
      ensures forall k :: 0 <= k < |old(todos)| && old(todos)[k].id == id ==>
        todos == old(todos)[..k] + old(todos)[k + 1..]
      ensures nextId == old(nextId) && text == old(text) && issued == old(issued)
    {
      IncreasingIdsAreDistinct(todos);
      forall k | 0 <= k < |todos| && todos[k].id == id
        ensures Reduce(todos, TodoReducer.Delete(id)) == todos[..k] + todos[k + 1..]
      {
        DeleteUnique(todos, k);
      }
      DeletePreservesOrder(todos, id, nextId);
      todos := Reduce(todos, TodoReducer.Delete(id));
    }
  }

  /** Adding non-blank text and then deleting the item just added leaves the
      list as it was; only the counter has moved on. */
  method AddThenDeleteRestores(s: Session)
    requires s.Valid() && !IsBlank(s.text)
    modifies s
    ensures s.Valid()
    ensures s.todos == old(s.todos) && s.nextId == old(s.nextId) + 1 && s.text == ""
  {
    var id := s.nextId;
    ghost var before, content := s.todos, s.text;
    s.HandleAdd();
    s.Delete(id);
    CreateThenDeleteRestores(before, id, content);
  }

  /** Two additions and a deletion from a fresh session, and a deletion of
      an id that is not there. */
  method Scenario() returns (s: Session)
    ensures s.Valid()
    ensures s.todos == [Todo(1, "walk dog")] && s.nextId == 2
  {
    s := new Session();
    s.Delete(5);
    assert s.todos == [];
    s.SetText("buy milk");
    assert !IsWhitespace(s.text[0]);
    s.HandleAdd();
    assert s.todos == [Todo(0, "buy milk")];
    s.SetText("walk dog");
    assert !IsWhitespace(s.text[0]);
    s.HandleAdd();
    assert s.todos == [Todo(0, "buy milk"), Todo(1, "walk dog")];
    s.Delete(0);
  }
}
