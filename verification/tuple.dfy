/** `Tuple`: an immutable, ordered list of named values; the unit that flows
    through the pipeline and the element type of the final result set.

    Java keeps two parallel lists and checks their lengths in the
    constructor; here the length agreement is part of the type.  The public
    constructor copies whatever names it is given, null among them, so a
    name is an `Option<string>`. */
module Tuples {
  import opened Base
  import opened Values
  import Preconditions

  datatype Fields = Fields(names: seq<Option<string>>, values: seq<Value>)

  /** A tuple: as many names as values. */
  type Tuple = f: Fields | |f.names| == |f.values| witness Fields([], [])

  /** `EMPTY_TUPLE`, the 0-tuple. */
  const Empty: Tuple := Fields([], [])

  /** The constructor: a null list raises NullPointerException (names
      checked first); lists of different lengths raise
      IllegalArgumentException; otherwise both are copied as they are. */
  function New(names: Option<seq<Option<string>>>, values: Option<seq<Value>>): (r: Result<Tuple>)
    ensures names.None? ==> r == Err(NullPointer)
    ensures names.Some? && values.None? ==> r == Err(NullPointer)
    ensures r.Ok? <==> names.Some? && values.Some? && |names.value| == |values.value|
    ensures names.Some? && values.Some? && r.Err? ==> r.error == IllegalArgument
    ensures r.Ok? ==> r.value.names == names.value && r.value.values == values.value
  {
    var ns :- Preconditions.CheckNotNull(names);
    var vs :- Preconditions.CheckNotNull(values);
    var sameLength := |vs| == |ns|;
    :- Preconditions.CheckArgument(sameLength);
    Ok(Fields(ns, vs))
  }

  /** `size()`. */
  function Size(t: Tuple): nat
  {
    |t.values|
  }

  /** `singleOf(name, value)`: a one-element tuple; the name must be non-null
      and non-empty, the value may be null. */
  function SingleOf(name: Option<string>, value: Value): (r: Result<Tuple>)
    ensures name.None? ==> r == Err(NullPointer)
    ensures name == Some("") ==> r == Err(IllegalArgument)
    ensures r.Ok? <==> !Preconditions.IsNullOrEmpty(name)
    ensures r.Ok? ==> Size(r.value) == 1 && GetValue(r.value, name) == Ok(value)
  {
    var n :- Preconditions.CheckNotEmpty(name);
    New(Some([Some(n)]), Some([value]))
  }

  /** `addElement(name, value)`: a new tuple with one more element at the end;
      the receiver is left as it is (copy semantics come for free here). */
  function AddElement(t: Tuple, name: Option<string>, value: Value): (r: Result<Tuple>)
    ensures name.None? ==> r == Err(NullPointer)
    ensures name == Some("") ==> r == Err(IllegalArgument)
    ensures r.Ok? <==> !Preconditions.IsNullOrEmpty(name)
    ensures r.Ok? ==>
      && Size(r.value) == Size(t) + 1
      && r.value.names[..Size(t)] == t.names
      && r.value.values[..Size(t)] == t.values
      && r.value.names[Size(t)] == name
      && r.value.values[Size(t)] == value
      && r.value != t
  {
    var n :- Preconditions.CheckNotEmpty(name);
    New(Some(t.names + [Some(n)]), Some(t.values + [value]))
  }

  /** `containsNullValue()`, as the source computes it: a scan that sets a
      flag on every null it passes. */
  method ContainsNullValue(t: Tuple) returns (result: bool)
    ensures result <==> exists i :: 0 <= i < |t.values| && t.values[i] == Null
  {
    result := false;
    var k := 0;
    while k < |t.values|
      invariant 0 <= k <= |t.values|
      invariant result <==> exists i :: 0 <= i < k && t.values[i] == Null
    {
      if t.values[k] == Null {
        result := true;
      }
      k := k + 1;
    }
  }

  /** The property `ContainsNullValue` computes, for use inside functions. */
  predicate HasNull(t: Tuple)
  {
    Null in t.values
  }

  /** `List.indexOf`: position of the first occurrence, or -1; null is
      found like any other element. */
  function IndexOf(names: seq<Option<string>>, name: Option<string>): (r: int)
    ensures -1 <= r < |names|
    ensures r == -1 <==> name !in names
    ensures r >= 0 ==> names[r] == name && name !in names[..r]
  {
    if |names| == 0 then -1
    else
      var rest := IndexOf(names[..|names| - 1], name);
      if rest >= 0 then rest
      else if names[|names| - 1] == name then |names| - 1
      else -1
  }

  /** `hasFieldName(name)`. */
  predicate HasFieldName(t: Tuple, name: Option<string>)
  {
    name in t.names
  }

  /** `getValue(int)`: IndexOutOfBoundsException outside `[0, size)`. */
  function GetValueAt(t: Tuple, index: int): (r: Result<Value>)
    ensures r.Ok? <==> 0 <= index < Size(t)
    ensures r.Err? ==> r.error == IndexOutOfBounds
    ensures r.Ok? ==> r.value == t.values[index]
  {
    if 0 <= index < |t.values| then Ok(t.values[index]) else Err(IndexOutOfBounds)
  }

  /** `getValue(String)`: the value at the first position carrying the name
      (null included); IllegalArgumentException when no position does. */
  function GetValue(t: Tuple, name: Option<string>): (r: Result<Value>)
    ensures r.Ok? <==> name in t.names
    ensures r.Err? ==> r.error == IllegalArgument
    ensures r.Ok? ==> exists i :: 0 <= i < |t.names| && t.names[i] == name && r.value == t.values[i]
                                  && name !in t.names[..i]
  {
    var index := IndexOf(t.names, name);
    :- Preconditions.CheckArgument(index >= 0);
    GetValueAt(t, index)
  }

  /** `toMap()`: a map from each name to the value stored under it; when a
      name repeats, the later entry overwrites the earlier one. */
  function ToMap(t: Tuple): (m: map<Option<string>, Value>)
    ensures m.Keys == set i | 0 <= i < |t.names| :: t.names[i]
  {
    MapKeys(t.names, t.values);
    MapOf(t.names, t.values)
  }

  function MapOf(names: seq<Option<string>>, values: seq<Value>): map<Option<string>, Value>
    requires |names| == |values|
    decreases |names|
  {
    if |names| == 0 then map[]
    else
      var k := |names| - 1;
      MapOf(names[..k], values[..k])[names[k] := values[k]]
  }

  lemma {:induction false} MapKeys(names: seq<Option<string>>, values: seq<Value>)
    requires |names| == |values|
    ensures MapOf(names, values).Keys == set i | 0 <= i < |names| :: names[i]
    decreases |names|
  {
    if |names| > 0 {
      var k := |names| - 1;
      MapKeys(names[..k], values[..k]);
      var front := set i | 0 <= i < k :: names[..k][i];
      assert front == set i | 0 <= i < k :: names[i];
      assert (set i | 0 <= i < |names| :: names[i]) == front + {names[k]};
    }
  }

  /** The value `toMap` keeps for a name is the one at its last position. */
  lemma {:induction false} ToMapKeepsLastValue(t: Tuple, i: nat)
    requires i < |t.names| && t.names[i] !in t.names[i + 1..]
    ensures t.names[i] in ToMap(t) && ToMap(t)[t.names[i]] == t.values[i]
  {
    MapLastWins(t.names, t.values, i);
  }

  lemma {:induction false} MapLastWins(names: seq<Option<string>>, values: seq<Value>, i: nat)
    requires |names| == |values|
    requires i < |names| && names[i] !in names[i + 1..]
    ensures names[i] in MapOf(names, values) && MapOf(names, values)[names[i]] == values[i]
    decreases |names|
  {
    var k := |names| - 1;
    if i < k {
      assert names[k] in names[i + 1..];
      assert names[..k][i + 1..] == names[i + 1..k];
      MapLastWins(names[..k], values[..k], i);
    }
  }

  /** When the names are distinct, lookup through `toMap` and `getValue`
      agree on every name. */
  lemma ToMapAgreesWithGetValue(t: Tuple, i: nat)
    requires i < |t.names|
    requires forall j, k :: 0 <= j < k < |t.names| ==> t.names[j] != t.names[k]
    ensures GetValue(t, t.names[i]) == Ok(ToMap(t)[t.names[i]])
  {
    var n := t.names[i];
    assert n !in t.names[i + 1..];
    var r := GetValue(t, n);
    var j :| 0 <= j < |t.names| && t.names[j] == n && r.value == t.values[j];
    assert j == i;
    ToMapKeepsLastValue(t, i);
  }

  /** Applies `addElement` once per (name, value) pair, in order. */
  function AddAll(t: Tuple, pairs: seq<(string, Value)>): Result<Tuple>
    decreases |pairs|
  {
    if |pairs| == 0 then Ok(t)
    else
      var next :- AddElement(t, Some(pairs[0].0), pairs[0].1);
      AddAll(next, pairs[1..])
  }

  /** Building by `addElement` with non-empty names always succeeds and
      appends exactly the supplied names and values, in order. */
  lemma {:induction false} AddAllBuildsConcatenation(t: Tuple, pairs: seq<(string, Value)>)
    requires forall k :: 0 <= k < |pairs| ==> pairs[k].0 != ""
    ensures AddAll(t, pairs).Ok?
    ensures AddAll(t, pairs).value.names == t.names + seq(|pairs|, k requires 0 <= k < |pairs| => Some(pairs[k].0))
    ensures AddAll(t, pairs).value.values == t.values + seq(|pairs|, k requires 0 <= k < |pairs| => pairs[k].1)
    decreases |pairs|
  {
    if |pairs| > 0 {
      var next := AddElement(t, Some(pairs[0].0), pairs[0].1).value;
      AddAllBuildsConcatenation(next, pairs[1..]);
      var ns := seq(|pairs|, k requires 0 <= k < |pairs| => Some(pairs[k].0));
      var ns' := seq(|pairs| - 1, k requires 0 <= k < |pairs| - 1 => Some(pairs[1..][k].0));
      assert ns == [Some(pairs[0].0)] + ns';
      var vs := seq(|pairs|, k requires 0 <= k < |pairs| => pairs[k].1);
      var vs' := seq(|pairs| - 1, k requires 0 <= k < |pairs| - 1 => pairs[1..][k].1);
      assert vs == [pairs[0].1] + vs';
    }
  }

  /** `equals`: two tuples are equal exactly when their name lists and
      value lists are. */
  lemma TupleEqualityIsFieldwise(a: Tuple, b: Tuple)
    ensures a == b <==> a.names == b.names && a.values == b.values
  {
  }
}
