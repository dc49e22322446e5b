/**
 The derived views of the to-do list: the four-way filter table behind
 `filteredTodos`, the purge performed by `handleOnEmpty`, and the
 condition that disables the empty-trash button.
 */
module Views {
  import opened Todos

  /** The selector's four values. */
  datatype Filter = All | Checked | Unchecked | Removed

  /** The predicate table of `filteredTodos`: is `t` visible under `f`? */
  predicate Shows(f: Filter, t: Todo)
    ensures Shows(f, t) ==> (t.removed <==> f == Removed)
    ensures Shows(f, t) && (f == Checked || f == Unchecked) ==> (t.checked <==> f == Checked)
    ensures t.removed ==> (Shows(f, t) <==> f == Removed)
    ensures !t.removed && f != Removed && (f == All || (t.checked <==> f == Checked)) ==> Shows(f, t)
  {
    match f
    case All => !t.removed
    case Checked => t.checked && !t.removed
    case Unchecked => !t.checked && !t.removed
    case Removed => t.removed
  }

  /** `s.filter(t => Shows(f, t))`. */
  function Visible(s: seq<Todo>, f: Filter): (r: seq<Todo>)
    ensures |r| <= |s|
    ensures forall t :: t in r ==> t in s && Shows(f, t)
  {
    if s == [] then []
    else (if Shows(f, s[0]) then [s[0]] else []) + Visible(s[1..], f)
  }

  /** `s.filter(todo => !todo.removed)`, the new list of `handleOnEmpty`. */
  function Purged(s: seq<Todo>): (r: seq<Todo>)
    ensures |r| <= |s|
    ensures forall t :: t in r ==> t in s && !t.removed
  {
    if s == [] then []
    else (if !s[0].removed then [s[0]] else []) + Purged(s[1..])
  }

  /** The empty-trash button's `disabled`: no record passes the `todo.removed` filter. */
  function EmptyDisabled(s: seq<Todo>): (r: bool)
    ensures r <==> forall t :: t in s ==> !t.removed
  {
    VisibleComplete(s, Removed);
    var v := Visible(s, Removed);
    assert v != [] ==> v[0] in v;
    |v| == 0
  }

  /** `r` is `s` with some records left out, the rest in their original order. */
  predicate IsSubsequence(r: seq<Todo>, s: seq<Todo>)
    decreases |s|
  {
    r == [] || (s != [] && ((r[0] == s[0] && IsSubsequence(r[1..], s[1..])) || IsSubsequence(r, s[1..])))
  }

  /** Every record of `s` that passes the filter is in the view. */
  lemma {:induction false} VisibleComplete(s: seq<Todo>, f: Filter)
    ensures forall t :: t in s && Shows(f, t) ==> t in Visible(s, f)
  {
    if s != [] {
      VisibleComplete(s[1..], f);
      forall t | t in s && Shows(f, t) ensures t in Visible(s, f) {
        if t != s[0] {
          assert t in s[1..];
        }
      }
    }
  }

  /** A view keeps every copy of a record that passes the filter, and no copy of one that does not. */
  lemma {:induction false} VisibleCounts(s: seq<Todo>, f: Filter)
    ensures forall t :: multiset(Visible(s, f))[t] == if Shows(f, t) then multiset(s)[t] else 0
  {
    if s != [] {
      VisibleCounts(s[1..], f);
      assert s == [s[0]] + s[1..];
      assert multiset(s) == multiset([s[0]]) + multiset(s[1..]);
    }
  }

  /** A view never reorders: it is a subsequence of the list. */
  lemma {:induction false} VisibleIsSubsequence(s: seq<Todo>, f: Filter)
    ensures IsSubsequence(Visible(s, f), s)
  {
    if s != [] {
      VisibleIsSubsequence(s[1..], f);
      var r := Visible(s, f);
      if Shows(f, s[0]) {
        assert r[0] == s[0] && r[1..] == Visible(s[1..], f);
      } else {
        assert r == Visible(s[1..], f);
      }
    }
  }

  /** The checked and unchecked views split the all view; the all and removed views split the list. */
  lemma {:induction false} ViewSizes(s: seq<Todo>)
    ensures |Visible(s, Checked)| + |Visible(s, Unchecked)| == |Visible(s, All)|
    ensures |Visible(s, All)| + |Visible(s, Removed)| == |s|
  {
    if s != [] {
      ViewSizes(s[1..]);
    }
  }

  /** Emptying the trash leaves exactly the all view. */
  lemma {:induction false} PurgedIsAllView(s: seq<Todo>)
    ensures Purged(s) == Visible(s, All)
  {
    if s != [] {
      PurgedIsAllView(s[1..]);
    }
  }

  /** After emptying: no removed record, every copy of a live record kept, original order preserved. */
  lemma PurgedSpec(s: seq<Todo>)
    ensures forall t :: t in Purged(s) ==> !t.removed
    ensures forall t :: t in s && !t.removed ==> t in Purged(s)
    ensures forall t :: multiset(Purged(s))[t] == if t.removed then 0 else multiset(s)[t]
    ensures IsSubsequence(Purged(s), s)
  {
    PurgedIsAllView(s);
    VisibleComplete(s, All);
    VisibleCounts(s, All);
    VisibleIsSubsequence(s, All);
  }

  /** Emptying changes nothing exactly when the empty-trash button is disabled. */
  lemma {:induction false} PurgedUnchangedIff(s: seq<Todo>)
    ensures Purged(s) == s <==> EmptyDisabled(s)
  {
    if EmptyDisabled(s) && s != [] {
      assert s[0] in s;
      assert EmptyDisabled(s[1..]) by {
        forall t | t in s[1..] ensures !t.removed {
          assert t in s;
        }
      }
      PurgedUnchangedIff(s[1..]);
    }
  }

  /** Emptying the trash a second time is a no-op. */
  lemma PurgedIdempotent(s: seq<Todo>)
    ensures Purged(Purged(s)) == Purged(s)
  {
    PurgedUnchangedIff(Purged(s));
  }

  /** Emptying the trash keeps unique ids unique. */
  lemma {:induction false} PurgedKeepsUniqueIds(s: seq<Todo>)
    requires UniqueIds(s)
    ensures UniqueIds(Purged(s))
  {
    if s != [] {
      PurgedKeepsUniqueIds(s[1..]);
      if !s[0].removed {
        forall u | u in Purged(s[1..]) ensures u.id != s[0].id {
          var j :| 0 <= j < |s[1..]| && s[1..][j] == u;
          assert s[j + 1] == u;
        }
        PrependKeepsUniqueIds(Purged(s[1..]), s[0]);
      }
    }
  }

  /** The example of three records A, B, C and their four views. */
  lemma ViewsExample()
    ensures var a := Todo("A", 1, false, false);
            var b := Todo("B", 2, true, false);
            var c := Todo("C", 3, false, true);
            Visible([a, b, c], Checked) == [b] && Visible([a, b, c], Unchecked) == [a] &&
            Visible([a, b, c], Removed) == [c] && Visible([a, b, c], All) == [a, b]
  {
    var a := Todo("A", 1, false, false);
    var b := Todo("B", 2, true, false);
    var c := Todo("C", 3, false, true);
    assert [a, b, c][1..] == [b, c] && [b, c][1..] == [c] && [c][1..] == [];
    forall f: Filter ensures Visible([a, b, c], f) ==
        (if Shows(f, a) then [a] else []) + (if Shows(f, b) then [b] else []) + (if Shows(f, c) then [c] else []) {
      assert Visible([c], f) == (if Shows(f, c) then [c] else []);
      assert Visible([b, c], f) == (if Shows(f, b) then [b] else []) + Visible([c], f);
    }
  }
}
