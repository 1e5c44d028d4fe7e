/** The listener registry of the logging library (CEventSource): an ordered list
    of subscriber handles that is appended to at the tail and from which the first
    equal handle is erased. A handle type with equality stands for shared_ptr
    identity; the recursive mutex guarding the list is not modelled, so every
    operation is sequential. */
module Events {

  /** The list that RemoveListener leaves behind: `s` without its first element
      equal to `h`, or `s` itself when `h` does not occur. */
  function RemoveFirst<T(==)>(s: seq<T>, h: T): seq<T>
  {
    if s == [] then []
    else if s[0] == h then s[1..]
    else [s[0]] + RemoveFirst(s[1..], h)
  }

  /** std::find: the position of the first element of `s` equal to `h`, or `|s|`
      (the end iterator) when there is none. */
  method Find<T(==)>(s: seq<T>, h: T) returns (pos: nat)
    ensures pos <= |s|
    ensures pos < |s| ==> s[pos] == h
    ensures forall j :: 0 <= j < pos ==> s[j] != h
  {
    pos := 0;
    while pos < |s| && s[pos] != h
      invariant pos <= |s|
      invariant forall j :: 0 <= j < pos ==> s[j] != h
    {
      pos := pos + 1;
    }
  }

  /** Erasing at the first occurrence is exactly RemoveFirst: everything before
      and after that position keeps its order. */
  lemma {:induction false} RemoveFirstAt<T>(s: seq<T>, h: T, i: nat)
    requires i < |s| && s[i] == h
    requires forall j :: 0 <= j < i ==> s[j] != h
    ensures RemoveFirst(s, h) == s[..i] + s[i + 1..]
  {
    if i > 0 {
      RemoveFirstAt(s[1..], h, i - 1);
      assert s[1..][..i - 1] == s[1..i];
      assert s[1..][i..] == s[i + 1..];
      assert [s[0]] + s[1..i] == s[..i];
    }
  }

  /** Removing an absent handle is a no-op. */
  lemma {:induction false} RemoveFirstAbsent<T>(s: seq<T>, h: T)
    requires h !in s
    ensures RemoveFirst(s, h) == s
  {
    if s != [] {
      RemoveFirstAbsent(s[1..], h);
      assert [s[0]] + s[1..] == s;
    }
  }

  /** Exactly one copy of `h` goes when it is present, none otherwise; every other
      handle keeps its count. */
  lemma {:induction false} RemoveFirstCount<T>(s: seq<T>, h: T)
    ensures |RemoveFirst(s, h)| == if h in s then |s| - 1 else |s|
    ensures multiset(RemoveFirst(s, h)) == multiset(s) - multiset{h}
  {
    if s != [] {
      assert s == [s[0]] + s[1..];
      if s[0] != h {
        RemoveFirstCount(s[1..], h);
        assert h in s <==> h in s[1..];
      }
    }
  }

  /** AddListener followed by RemoveListener of the same handle: the original list
      comes back when the handle was absent; when it was present the EARLIER copy
      is erased and the new one stays at the tail, so only the multiset of
      handles comes back. */
  lemma {:induction false} AddThenRemove<T>(s: seq<T>, h: T)
    ensures h !in s ==> RemoveFirst(s + [h], h) == s
    ensures h in s ==> RemoveFirst(s + [h], h) == RemoveFirst(s, h) + [h]
    ensures multiset(RemoveFirst(s + [h], h)) == multiset(s)
  {
    if s == [] {
      assert [] + [h] == [h];
    } else {
      assert (s + [h])[0] == s[0];
      assert (s + [h])[1..] == s[1..] + [h];
      if s[0] != h {
        AddThenRemove(s[1..], h);
        assert h in s <==> h in s[1..];
      }
    }
    RemoveFirstCount(s + [h], h);
  }

  /** Adding the same handle twice and removing it once leaves one more copy of it
      than before the adds, and no other handle's count changes. */
  lemma AddTwiceRemoveOnce<T>(s: seq<T>, h: T, other: T)
    requires other != h
    ensures multiset(RemoveFirst(s + [h] + [h], h))[h] == multiset(s)[h] + 1
    ensures multiset(RemoveFirst(s + [h] + [h], h))[other] == multiset(s)[other]
  {
    RemoveFirstCount(s + [h] + [h], h);
  }

  /** CEventSource: the registry itself. `listeners` is the std::list member,
      head first. */
  class EventSource<T(==)> {
    var listeners: seq<T>

    /** The default constructor: no listeners. */
    constructor ()
      ensures listeners == []
    {
      listeners := [];
    }

    /** The seeding constructor: exactly the given listeners, in the same order. */
    constructor FromList(initial: seq<T>)
      ensures listeners == initial
    {
      listeners := initial;
    }

    /** push_back without a uniqueness check: a handle already present gets a
        second entry. */
    method AddListener(h: T)
      modifies this
      ensures listeners == old(listeners) + [h]
      ensures |listeners| == |old(listeners)| + 1
      ensures multiset(listeners)[h] == multiset(old(listeners))[h] + 1
    {
      listeners := listeners + [h];
    }

    /** find + erase: the first entry equal to `h` goes, all other entries keep
        their order; an absent handle leaves the list as it was. */
    method RemoveListener(h: T)
      modifies this
      ensures listeners == RemoveFirst(old(listeners), h)
      ensures h !in old(listeners) ==> listeners == old(listeners)
      ensures h in old(listeners) ==> |listeners| == |old(listeners)| - 1
      ensures multiset(listeners) == multiset(old(listeners)) - multiset{h}
    {
      var pos := Find(listeners, h);
      RemoveFirstCount(listeners, h);
      if pos < |listeners| {
        RemoveFirstAt(listeners, h, pos);
        listeners := listeners[..pos] + listeners[pos + 1..];
      } else {
        RemoveFirstAbsent(listeners, h);
      }
    }
  }

  /** What a caller sees through the object: add `h` twice, remove it once, and
      one extra copy of `h` remains registered while every other handle keeps
      its count. */
  method AddTwiceRemoveOnceOn<T(==)>(source: EventSource<T>, h: T)
    modifies source
    ensures source.listeners == RemoveFirst(old(source.listeners) + [h] + [h], h)
    ensures multiset(source.listeners)[h] == multiset(old(source.listeners))[h] + 1
    ensures forall x :: x != h ==> multiset(source.listeners)[x] == multiset(old(source.listeners))[x]
  {
    source.AddListener(h);
    source.AddListener(h);
    source.RemoveListener(h);
    forall x | x != h
      ensures multiset(source.listeners)[x] == multiset(old(source.listeners))[x]
    {
      AddTwiceRemoveOnce(old(source.listeners), h, x);
    }
  }
}
