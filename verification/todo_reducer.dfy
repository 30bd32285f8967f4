/** The todo list's transition function: from the current list and a tagged
    action to the next list. It never changes the list it is given; every
    transition builds a new one. */
module TodoReducer {

  /** One item of the list: the number it was created with and its text. */
  datatype Todo = Todo(id: int, content: string)

  /** The two action tags the reducer recognises. */
  const CREATE: string := "CREATE"
  const DELETE: string := "DELETE"

  /** A dispatched action. `Other` stands for an action whose tag the reducer
      does not handle; a well-tagged `Other` carries neither CREATE nor
      DELETE. */
  datatype Action =
    | Create(id: int, content: string)
    | Delete(id: int)
    | Other(tag: string)

  /** The `type` string an action carries. */
  function Tag(a: Action): string {
    match a
    case Create(_, _) => CREATE
    case Delete(_) => DELETE
    case Other(tag) => tag
  }

  predicate WellTagged(a: Action) {
    a.Other? ==> a.tag != CREATE && a.tag != DELETE
  }

  /** The reducer's `switch` on the action's `type` string: CREATE and DELETE
      pick their branch and read the payload; any other tag falls through to
      the default. */
  function Decode(tag: string, id: int, content: string): (a: Action)
    ensures WellTagged(a) && Tag(a) == tag
    ensures a.Create? ==> a.id == id && a.content == content
    ensures a.Delete? ==> a.id == id
  {
    if tag == CREATE then Create(id, content)
    else if tag == DELETE then Delete(id)
    else Other(tag)
  }

  /** `state.filter(todo => todo.id !== id)`: the items whose id differs from
      `id`, in their original order. */
  function RemoveId(s: seq<Todo>, id: int): (r: seq<Todo>)
    ensures |r| <= |s|
  {
    if s == [] then []
    else (if s[0].id != id then [s[0]] else []) + RemoveId(s[1..], id)
  }

  /** The filter keeps exactly the items whose id differs from `id`. */
  lemma {:induction false} RemoveIdMembers(s: seq<Todo>, id: int)
    ensures forall t :: t in RemoveId(s, id) <==> t in s && t.id != id
  {
    if s != [] {
      RemoveIdMembers(s[1..], id);
      assert s == [s[0]] + s[1..];
    }
  }

  /** The reducer. CREATE appends, DELETE filters, anything else is a no-op.
      It checks nothing: a CREATE with empty or blank content appends too. */
  function Reduce(state: seq<Todo>, action: Action): (r: seq<Todo>)
    ensures action.Create? ==>
      |r| == |state| + 1 && r[..|state|] == state
      && r[|state|] == Todo(action.id, action.content)
    ensures action.Delete? ==> |r| <= |state|
    ensures action.Other? ==> r == state
  {
    match action
    case Create(id, content) => state + [Todo(id, content)]
    case Delete(id) => RemoveId(state, id)
    case Other(_) => state
  }

  /** The list after dispatching `actions` one after the other. Each action
      adds at most one item. */
  function Replay(state: seq<Todo>, actions: seq<Action>): (r: seq<Todo>)
    ensures |r| <= |state| + |actions|
    decreases |actions|
  {
    if actions == [] then state
    else Replay(Reduce(state, actions[0]), actions[1..])
  }

  /** An action whose `type` string is neither CREATE nor DELETE falls
      through to the default branch and leaves the list unchanged. */
  lemma DefaultIsNoop(state: seq<Todo>, tag: string, id: int, content: string)
    requires tag != CREATE && tag != DELETE
    ensures Reduce(state, Decode(tag, id, content)) == state
  {
  }

  /** DELETE keeps exactly the items whose id differs from the payload id:
      none of the kept items has that id. */
  lemma DeleteKeepsOthers(state: seq<Todo>, id: int)
    ensures forall t :: t in Reduce(state, Delete(id)) <==> t in state && t.id != id
  {
    RemoveIdMembers(state, id);
  }

  /** Filtering distributes over concatenation, so it keeps the relative
      order of the items it keeps. */
  lemma {:induction false} RemoveIdAppend(a: seq<Todo>, b: seq<Todo>, id: int)
    ensures RemoveId(a + b, id) == RemoveId(a, id) + RemoveId(b, id)
  {
    if a == [] {
      assert a + b == b;
    } else {
      var head := if a[0].id != id then [a[0]] else [];
      assert (a + b)[0] == a[0] && (a + b)[1..] == a[1..] + b;
      calc {
        RemoveId(a + b, id);
        head + RemoveId(a[1..] + b, id);
        { RemoveIdAppend(a[1..], b, id); }
        head + (RemoveId(a[1..], id) + RemoveId(b, id));
        (head + RemoveId(a[1..], id)) + RemoveId(b, id);
        RemoveId(a, id) + RemoveId(b, id);
      }
    }
  }

  /** DELETE of an id that no item has returns the list unchanged. */
  lemma {:induction false} RemoveIdAbsent(s: seq<Todo>, id: int)
    requires forall i :: 0 <= i < |s| ==> s[i].id != id
    ensures RemoveId(s, id) == s
  {
    if s != [] {
      RemoveIdAbsent(s[1..], id);
    }
  }

  /** DELETE of an id that no item has is a no-op of the reducer. */
  lemma DeleteAbsentIsNoop(state: seq<Todo>, id: int)
    requires forall i :: 0 <= i < |state| ==> state[i].id != id
    ensures Reduce(state, Delete(id)) == state
  {
    RemoveIdAbsent(state, id);
  }

  /** Filtering out an id that only the item at index `k` has removes just
      that item. */
  lemma {:induction false} RemoveIdUnique(s: seq<Todo>, k: nat)
    requires k < |s|
    requires forall i :: 0 <= i < |s| && i != k ==> s[i].id != s[k].id
    ensures RemoveId(s, s[k].id) == s[..k] + s[k + 1..]
  {
    var id, tail := s[k].id, s[1..];
    if k == 0 {
      RemoveIdAbsent(tail, id);
    } else {
      assert tail[k - 1] == s[k];
      RemoveIdUnique(tail, k - 1);
      calc {
        RemoveId(s, id);
        [s[0]] + RemoveId(tail, id);
        [s[0]] + (tail[..k - 1] + tail[k..]);
        { assert [s[0]] + tail[..k - 1] == s[..k]; assert tail[k..] == s[k + 1..]; }
        s[..k] + s[k + 1..];
      }
    }
  }

  /** DELETE of an id that exactly one item has removes that item and keeps
      all others in their original order. */
  lemma DeleteUnique(state: seq<Todo>, k: nat)
    requires k < |state|
    requires forall i :: 0 <= i < |state| && i != k ==> state[i].id != state[k].id
    ensures Reduce(state, Delete(state[k].id)) == state[..k] + state[k + 1..]
    ensures |Reduce(state, Delete(state[k].id))| == |state| - 1
  {
    RemoveIdUnique(state, k);
  }

  /** Deleting the same id twice is the same as deleting it once. */
  lemma DeleteIdempotent(state: seq<Todo>, id: int)
    ensures Reduce(Reduce(state, Delete(id)), Delete(id)) == Reduce(state, Delete(id))
  {
    var r := RemoveId(state, id);
    RemoveIdMembers(state, id);
    assert forall i :: 0 <= i < |r| ==> r[i] in r;
    RemoveIdAbsent(r, id);
  }

  /** CREATE of an id no item has, followed by DELETE of that id, restores
      the list exactly. */
  lemma CreateThenDeleteRestores(state: seq<Todo>, id: int, content: string)
    requires forall i :: 0 <= i < |state| ==> state[i].id != id
    ensures Reduce(Reduce(state, Create(id, content)), Delete(id)) == state
  {
    RemoveIdAppend(state, [Todo(id, content)], id);
    RemoveIdAbsent(state, id);
  }

  /** A run of CREATE actions appends one item per action, in dispatch
      order, and leaves the earlier items in place. */
  lemma {:induction false} ReplayCreates(state: seq<Todo>, actions: seq<Action>)
    requires forall i :: 0 <= i < |actions| ==> actions[i].Create?
    ensures |Replay(state, actions)| == |state| + |actions|
    ensures Replay(state, actions)[..|state|] == state
    ensures forall i :: 0 <= i < |actions| ==>
      Replay(state, actions)[|state| + i] == Todo(actions[i].id, actions[i].content)
    decreases |actions|
  {
    if actions != [] {
      var next := Reduce(state, actions[0]);
      ReplayCreates(next, actions[1..]);
      var r := Replay(state, actions);
      assert r == Replay(next, actions[1..]);
      assert r[..|state|] == r[..|next|][..|state|];
      forall i | 0 <= i < |actions|
        ensures r[|state| + i] == Todo(actions[i].id, actions[i].content)
      {
        if i == 0 {
          assert r[|state|] == r[..|next|][|state|];
        } else {
          assert actions[1..][i - 1] == actions[i];
        }
      }
    }
  }
}
