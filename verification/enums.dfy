/**
 * Enumerated integer fields (`Int8Enum`, `Int16leEnum`, …): a table of
 * names and values. Setting a field by name looks the name up (`Hash#[]`);
 * printing it (`to_human`) gives the first name whose value matches, or the
 * `<unknown:N>` form.
 */
module Enums {
  import opened Bytes

  type Table = seq<(string, nat)>

  /** A table whose values are the positions of the names: 0, 1, 2, … */
  function Indexed(names: seq<string>): (t: Table)
    ensures |t| == |names|
    ensures forall i :: 0 <= i < |names| ==> t[i] == (names[i], i)
  {
    if |names| == 0 then []
    else Indexed(names[..|names| - 1]) + [(names[|names| - 1], |names| - 1)]
  }

  /** The table pairing each name with the value at the same position. */
  function Zip(names: seq<string>, values: seq<nat>): (t: Table)
    requires |names| == |values|
    ensures |t| == |names|
    ensures forall i :: 0 <= i < |names| ==> t[i] == (names[i], values[i])
  {
    if |names| == 0 then []
    else Zip(names[..|names| - 1], values[..|values| - 1]) + [(names[|names| - 1], values[|values| - 1])]
  }

  /** No name and no value appears twice. */
  predicate Distinct(t: Table) {
    forall i, j :: 0 <= i < j < |t| ==> t[i].0 != t[j].0 && t[i].1 != t[j].1
  }

  /** Value of `name`, if the table has it. */
  function ValueOf(t: Table, name: string): (r: Option<nat>)
    ensures r.Some? <==> exists i :: 0 <= i < |t| && t[i].0 == name
    ensures r.Some? ==> exists i :: 0 <= i < |t| && t[i] == (name, r.value)
  {
    if |t| == 0 then None
    else if t[0].0 == name then Some(t[0].1)
    else
      var r := ValueOf(t[1..], name);
      assert forall i :: 1 <= i < |t| ==> t[i] == t[1..][i - 1];
      r
  }

  /** `to_human`: the first name whose value is `v`. */
  function NameOf(t: Table, v: nat): (r: EnumName)
    ensures r.Known? <==> exists i :: 0 <= i < |t| && t[i].1 == v
    ensures r.Known? ==> exists i :: 0 <= i < |t| && t[i] == (r.name, v)
    ensures r.Unknown? ==> r.value == v
  {
    if |t| == 0 then Unknown(v)
    else if t[0].1 == v then Known(t[0].0)
    else
      var r := NameOf(t[1..], v);
      assert forall i :: 1 <= i < |t| ==> t[i] == t[1..][i - 1];
      r
  }

  /** The name printed for `v` is that of its first entry. */
  lemma {:induction false} NameOfFirst(t: Table, v: nat, i: nat)
    requires i < |t| && t[i].1 == v && forall j :: 0 <= j < i ==> t[j].1 != v
    ensures NameOf(t, v) == Known(t[i].0)
  {
    if i > 0 {
      NameOfFirst(t[1..], v, i - 1);
    }
  }

  /** In a table without repetitions, printing and looking up agree in both directions. */
  lemma NameOfValueOf(t: Table, v: nat, name: string)
    requires Distinct(t)
    ensures NameOf(t, v) == Known(name) <==> ValueOf(t, name) == Some(v)
  {
    if NameOf(t, v) == Known(name) {
      var i :| 0 <= i < |t| && t[i] == (name, v);
      var w := ValueOf(t, name);
      var j :| 0 <= j < |t| && t[j] == (name, w.value);
      assert i == j;
    }
    if ValueOf(t, name) == Some(v) {
      var i :| 0 <= i < |t| && t[i] == (name, v);
      var n := NameOf(t, v);
      var j :| 0 <= j < |t| && t[j] == (n.name, v);
      assert i == j;
    }
  }
}
