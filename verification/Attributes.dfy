/**
The flat attribute lists of chromedp/util.go: name, value, name, value, ... kept up
to date by two events, and read as a map.
*/
module Attributes {
  /** An even list whose names are distinct. */
  predicate Flat(a: seq<string>) {
    |a| % 2 == 0 && (a == [] || (!HasName(a[2..], a[0]) && Flat(a[2..])))
  }

  predicate HasName(a: seq<string>, name: string)
    requires |a| % 2 == 0
  {
    a != [] && (a[0] == name || HasName(a[2..], name))
  }

  function AsMap(a: seq<string>): (m: map<string, string>)
    requires |a| % 2 == 0
    ensures forall name :: name in m <==> HasName(a, name)
  {
    if a == [] then map[] else AsMap(a[2..])[a[0] := a[1]]
  }

  /** The first value with the name is replaced, or a new pair goes to the end. */
  function WithAttribute(a: seq<string>, name: string, value: string): seq<string>
    requires |a| % 2 == 0
  {
    if a == [] then [name, value]
    else if a[0] == name then [name, value] + a[2..]
    else a[..2] + WithAttribute(a[2..], name, value)
  }

  function WithoutAttribute(a: seq<string>, name: string): (r: seq<string>)
    requires |a| % 2 == 0
    ensures |r| % 2 == 0
  {
    if a == [] then []
    else if a[0] == name then WithoutAttribute(a[2..], name)
    else a[..2] + WithoutAttribute(a[2..], name)
  }

  /** Passing over a pair with another name, and replacing the value of one with the name. */
  lemma {:induction false} Passed(a: seq<string>, i: nat, name: string, value: string)
    requires |a| % 2 == 0 && i % 2 == 0 && i < |a|
    requires WithAttribute(a, name, value) == a[..i] + WithAttribute(a[i..], name, value)
    ensures a[i] != name ==> WithAttribute(a, name, value) == a[..i + 2] + WithAttribute(a[i + 2..], name, value)
    ensures a[i] == name ==> WithAttribute(a, name, value) == a[i := name][i + 1 := value]
  {
    assert a[i..][2..] == a[i + 2..];
    if a[i] != name {
      var w := WithAttribute(a[i + 2..], name, value);
      assert a[..i] + (a[i..][..2] + w) == a[..i + 2] + w;
    }
  }

  method Modify(a: seq<string>, name: string, value: string) returns (r: seq<string>)
    requires |a| % 2 == 0
    ensures r == WithAttribute(a, name, value)
  {
    hide WithAttribute;
    var i, found := 0, false;
    assert a[..0] + WithAttribute(a[0..], name, value) == WithAttribute(a, name, value) by {
      assert a[0..] == a;
    }
    while i < |a|
      invariant 0 <= i <= |a| && i % 2 == 0 && !found
      invariant WithAttribute(a, name, value) == a[..i] + WithAttribute(a[i..], name, value)
    {
      Passed(a, i, name, value);
      if a[i] == name {
        found := true;
        break;
      }
      i := i + 2;
    }
    if found {
      r := a[i := name][i + 1 := value];
    } else {
      r := a + [name, value];
      AddedAtEnd(a, name, value);
    }
  }

  lemma {:induction false} AddedAtEnd(a: seq<string>, name: string, value: string)
    requires |a| % 2 == 0
    ensures a[..|a|] + WithAttribute(a[|a|..], name, value) == a + [name, value]
  {
    assert a[..|a|] == a && a[|a|..] == [];
  }

  method Remove(a: seq<string>, name: string) returns (r: seq<string>)
    requires |a| % 2 == 0
    ensures r == WithoutAttribute(a, name)
  {
    r := [];
    var i := 0;
    while i < |a|
      invariant 0 <= i <= |a| && i % 2 == 0
      invariant WithoutAttribute(a, name) == r + WithoutAttribute(a[i..], name)
    {
      assert a[i..][2..] == a[i + 2..] && a[i..][..2] == [a[i], a[i + 1]];
      if a[i] != name {
        r := r + [a[i], a[i + 1]];
      }
      i := i + 2;
    }
  }

  lemma {:induction false} Modified(a: seq<string>, name: string, value: string)
    requires Flat(a)
    ensures Flat(WithAttribute(a, name, value))
    ensures AsMap(WithAttribute(a, name, value)) == AsMap(a)[name := value]
  {
    var r := WithAttribute(a, name, value);
    if a != [] {
      if a[0] == name {
        assert r[2..] == a[2..];
      } else {
        Modified(a[2..], name, value);
        assert r[2..] == WithAttribute(a[2..], name, value);
        assert HasName(r[2..], a[0]) <==> a[0] in AsMap(r[2..]);
      }
    } else {
      assert r[2..] == [];
    }
  }

  lemma {:induction false} Removed(a: seq<string>, name: string)
    requires Flat(a)
    ensures Flat(WithoutAttribute(a, name))
    ensures AsMap(WithoutAttribute(a, name)) == AsMap(a) - {name}
  {
    var r := WithoutAttribute(a, name);
    if a != [] {
      Removed(a[2..], name);
      assert HasName(a[2..], a[0]) <==> a[0] in AsMap(a[2..]);
      if a[0] != name {
        assert r[2..] == WithoutAttribute(a[2..], name);
        assert HasName(r[2..], a[0]) <==> a[0] in AsMap(r[2..]);
      }
    }
  }

  /** In place: what stands in front of the first pair of the name and behind it stays where it is. */
  lemma {:induction false} ModifiedInPlace(a: seq<string>, b: seq<string>, name: string, was: string, value: string)
    requires |a| % 2 == 0 && |b| % 2 == 0 && !HasName(a, name)
    ensures WithAttribute(a + [name, was] + b, name, value) == a + [name, value] + b
    ensures WithAttribute(a, name, value) == a + [name, value]
    decreases |a|
  {
    var all := a + [name, was] + b;
    if a == [] {
      assert all[2..] == b;
    } else {
      ModifiedInPlace(a[2..], b, name, was, value);
      assert all[2..] == a[2..] + [name, was] + b && all[..2] == a[..2] && a == a[..2] + a[2..];
    }
  }

  /** The pairs of other names stay, in their order. */
  lemma {:induction false} RemovedInPlace(a: seq<string>, b: seq<string>, name: string, was: string)
    requires |a| % 2 == 0 && |b| % 2 == 0 && !HasName(a, name)
    ensures WithoutAttribute(a + [name, was] + b, name) == a + WithoutAttribute(b, name)
    ensures WithoutAttribute(a, name) == a
    decreases |a|
  {
    var all := a + [name, was] + b;
    if a == [] {
      assert all[2..] == b;
    } else {
      RemovedInPlace(a[2..], b, name, was);
      assert all[2..] == a[2..] + [name, was] + b && all[..2] == a[..2] && a == a[..2] + a[2..];
    }
  }

  datatype Event = Set(name: string, value: string) | Drop(name: string)

  function After(a: seq<string>, events: seq<Event>): seq<string>
    requires Flat(a)
    decreases |events|
  {
    if events == [] then a
    else
      match events[0]
      case Set(name, value) => Modified(a, name, value); After(WithAttribute(a, name, value), events[1..])
      case Drop(name) => Removed(a, name); After(WithoutAttribute(a, name), events[1..])
  }

  function MapAfter(m: map<string, string>, events: seq<Event>): map<string, string>
    decreases |events|
  {
    if events == [] then m
    else
      match events[0]
      case Set(name, value) => MapAfter(m[name := value], events[1..])
      case Drop(name) => MapAfter(m - {name}, events[1..])
  }

  /** Over every sequence of attribute events the list stays flat and reads as the map that got the same updates. */
  lemma {:induction false} ListIsMap(a: seq<string>, events: seq<Event>)
    requires Flat(a)
    ensures Flat(After(a, events)) && AsMap(After(a, events)) == MapAfter(AsMap(a), events)
    decreases |events|
  {
    if events != [] {
      match events[0]
      case Set(name, value) =>
        Modified(a, name, value);
        ListIsMap(WithAttribute(a, name, value), events[1..]);
      case Drop(name) =>
        Removed(a, name);
        ListIsMap(WithoutAttribute(a, name), events[1..]);
    }
  }
}
