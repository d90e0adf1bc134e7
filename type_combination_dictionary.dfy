/**
 * The ordered registry of SharpFileSystem/Collections/TypeCombinationDictionary.cs.
 *
 * Each registration pairs a source type and a destination type with a value.
 * A query for a (source, destination) pair is answered by the first
 * registration, in list order, whose types are both assignable from the
 * queried ones. Types are abstract: `K` with an "is assignable from"
 * relation supplied by the caller.
 */
module TypeCombinations {
  import opened Exceptions

  /** An immutable registration. */
  datatype Entry<K, T> = Entry(sourceType: K, destinationType: K, value: T)

  /** `Type.IsAssignableFrom` is reflexive and transitive. */
  ghost predicate IsPreorder<K(!new)>(isAssignableFrom: (K, K) -> bool)
  {
    && (forall t :: isAssignableFrom(t, t))
    && (forall a, b, c :: isAssignableFrom(a, b) && isAssignableFrom(b, c) ==> isAssignableFrom(a, c))
  }

  /** Whether registration `e` serves a query from `source` to `destination`. */
  predicate Accepts<K, T>(isAssignableFrom: (K, K) -> bool, e: Entry<K, T>, source: K, destination: K)
  {
    isAssignableFrom(e.sourceType, source) && isAssignableFrom(e.destinationType, destination)
  }

  /** The registrations that serve the query, in list order (LINQ `Where`). */
  function Where<K, T>(isAssignableFrom: (K, K) -> bool, rs: seq<Entry<K, T>>, source: K, destination: K)
    : (r: seq<Entry<K, T>>)
    ensures |r| <= |rs|
    ensures forall i :: 0 <= i < |r| ==> r[i] in rs && Accepts(isAssignableFrom, r[i], source, destination)
    ensures forall i :: 0 <= i < |rs| && Accepts(isAssignableFrom, rs[i], source, destination) ==> rs[i] in r
  {
    if rs == [] then []
    else
      var rest := Where(isAssignableFrom, rs[1..], source, destination);
      if Accepts(isAssignableFrom, rs[0], source, destination) then [rs[0]] + rest else rest
  }

  /** `Where` keeps list order: filtering a concatenation concatenates the filtered parts. */
  lemma {:induction false} WhereConcat<K, T>(isAssignableFrom: (K, K) -> bool, xs: seq<Entry<K, T>>, ys: seq<Entry<K, T>>, source: K, destination: K)
    ensures Where(isAssignableFrom, xs + ys, source, destination)
         == Where(isAssignableFrom, xs, source, destination) + Where(isAssignableFrom, ys, source, destination)
  {
    if xs == [] {
      assert xs + ys == ys;
    } else {
      var zs := xs + ys;
      assert zs[0] == xs[0] && zs[1..] == xs[1..] + ys;
      var head := if Accepts(isAssignableFrom, xs[0], source, destination) then [xs[0]] else [];
      WhereConcat(isAssignableFrom, xs[1..], ys, source, destination);
      var rest := Where(isAssignableFrom, xs[1..], source, destination);
      var later := Where(isAssignableFrom, ys, source, destination);
      assert Where(isAssignableFrom, zs, source, destination) == head + (rest + later);
      assert Where(isAssignableFrom, xs, source, destination) == head + rest;
    }
  }

  /** The index of the first accepting registration, if any. */
  ghost predicate IsFirstMatch<K, T>(isAssignableFrom: (K, K) -> bool, rs: seq<Entry<K, T>>, source: K, destination: K, i: int)
  {
    && 0 <= i < |rs|
    && Accepts(isAssignableFrom, rs[i], source, destination)
    && forall j :: 0 <= j < i ==> !Accepts(isAssignableFrom, rs[j], source, destination)
  }

  /** `FirstOrDefault` of `Where`: the first accepting registration, or none. */
  function FirstSupported<K, T>(isAssignableFrom: (K, K) -> bool, rs: seq<Entry<K, T>>, source: K, destination: K)
    : (r: Option<Entry<K, T>>)
    ensures r.None? <==> forall i :: 0 <= i < |rs| ==> !Accepts(isAssignableFrom, rs[i], source, destination)
    ensures r.Some? ==> exists i :: IsFirstMatch(isAssignableFrom, rs, source, destination, i) && rs[i] == r.value
  {
    var matches := Where(isAssignableFrom, rs, source, destination);
    FirstOfWhere(isAssignableFrom, rs, source, destination);
    if matches == [] then None else Some(matches[0])
  }

  /** The head of the filtered list is the first accepting registration. */
  lemma {:induction false} FirstOfWhere<K, T>(isAssignableFrom: (K, K) -> bool, rs: seq<Entry<K, T>>, source: K, destination: K)
    ensures var m := Where(isAssignableFrom, rs, source, destination);
      && (m == [] <==> forall i :: 0 <= i < |rs| ==> !Accepts(isAssignableFrom, rs[i], source, destination))
      && (m != [] ==> exists i :: IsFirstMatch(isAssignableFrom, rs, source, destination, i) && rs[i] == m[0])
  {
    if rs != [] {
      FirstOfWhere(isAssignableFrom, rs[1..], source, destination);
      if !Accepts(isAssignableFrom, rs[0], source, destination) {
        var m := Where(isAssignableFrom, rs[1..], source, destination);
        if m != [] {
          var i :| IsFirstMatch(isAssignableFrom, rs[1..], source, destination, i) && rs[1..][i] == m[0];
          assert IsFirstMatch(isAssignableFrom, rs, source, destination, i + 1);
        } else {
          forall i | 0 <= i < |rs|
            ensures !Accepts(isAssignableFrom, rs[i], source, destination)
          {
            if i > 0 {
              assert rs[i] == rs[1..][i - 1];
            }
          }
        }
      } else {
        assert IsFirstMatch(isAssignableFrom, rs, source, destination, 0);
      }
    }
  }

  /** There is at most one first match. */
  lemma FirstMatchUnique<K, T>(isAssignableFrom: (K, K) -> bool, rs: seq<Entry<K, T>>, source: K, destination: K, i: int, j: int)
    requires IsFirstMatch(isAssignableFrom, rs, source, destination, i)
    requires IsFirstMatch(isAssignableFrom, rs, source, destination, j)
    ensures i == j
  {
  }

  /**
   * A query for types derived from those of an answered query is answered
   * too, by the same registration or by one registered before it.
   */
  lemma DerivedQueryAnswered<K(!new), T>(isAssignableFrom: (K, K) -> bool, rs: seq<Entry<K, T>>,
                                        source: K, destination: K, source': K, destination': K, i: int)
    requires IsPreorder(isAssignableFrom)
    requires isAssignableFrom(source, source') && isAssignableFrom(destination, destination')
    requires IsFirstMatch(isAssignableFrom, rs, source, destination, i)
    ensures exists j :: j <= i && IsFirstMatch(isAssignableFrom, rs, source', destination', j)
  {
    assert Accepts(isAssignableFrom, rs[i], source', destination');
    var r := FirstSupported(isAssignableFrom, rs, source', destination');
    var j :| IsFirstMatch(isAssignableFrom, rs, source', destination', j) && rs[j] == r.value;
  }

  class TypeCombinationDictionary<K(==), T> {
    const isAssignableFrom: (K, K) -> bool
    var registrations: seq<Entry<K, T>>

    constructor (isAssignableFrom: (K, K) -> bool)
      ensures this.isAssignableFrom == isAssignableFrom && registrations == []
    {
      this.isAssignableFrom := isAssignableFrom;
      registrations := [];
    }

    function GetSupportedRegistrations(source: K, destination: K): (r: seq<Entry<K, T>>)
      reads this
      ensures forall i :: 0 <= i < |r| ==> r[i] in registrations && Accepts(isAssignableFrom, r[i], source, destination)
      ensures forall i :: 0 <= i < |registrations| ==>
        (Accepts(isAssignableFrom, registrations[i], source, destination) ==> registrations[i] in r)
    {
      Where(isAssignableFrom, registrations, source, destination)
    }

    function GetSupportedRegistration(source: K, destination: K): (r: Option<Entry<K, T>>)
      reads this
      ensures r.None? <==> forall i :: 0 <= i < |registrations| ==> !Accepts(isAssignableFrom, registrations[i], source, destination)
      ensures r.Some? ==> exists i :: IsFirstMatch(isAssignableFrom, registrations, source, destination, i) && registrations[i] == r.value
    {
      FirstSupported(isAssignableFrom, registrations, source, destination)
    }

    /**
     * `TryGetSupported`: whether some registration serves the query, and
     * the value of the first one that does.
     */
    method TryGetSupported(source: K, destination: K) returns (found: bool, value: Option<T>)
      ensures found <==> exists i :: 0 <= i < |registrations| && Accepts(isAssignableFrom, registrations[i], source, destination)
      ensures found ==> exists i :: IsFirstMatch(isAssignableFrom, registrations, source, destination, i) && value == Some(registrations[i].value)
      ensures !found ==> value == None
    {
      var r := GetSupportedRegistration(source, destination);
      if r.None? {
        return false, None;
      }
      value := Some(r.value.value);
      return true, value;
    }

    method AddFirst(source: K, destination: K, value: T)
      modifies this
      ensures registrations == [Entry(source, destination, value)] + old(registrations)
    {
      registrations := [Entry(source, destination, value)] + registrations;
    }

    method AddLast(source: K, destination: K, value: T)
      modifies this
      ensures registrations == old(registrations) + [Entry(source, destination, value)]
    {
      registrations := registrations + [Entry(source, destination, value)];
    }
  }

  /**
   * A registration added in front wins over every older one for the queries
   * it serves; one added at the back only serves queries nothing older serves.
   */
  lemma AddFirstWins<K, T>(isAssignableFrom: (K, K) -> bool, rs: seq<Entry<K, T>>, e: Entry<K, T>, source: K, destination: K)
    requires Accepts(isAssignableFrom, e, source, destination)
    ensures FirstSupported(isAssignableFrom, [e] + rs, source, destination) == Some(e)
  {
    assert IsFirstMatch(isAssignableFrom, [e] + rs, source, destination, 0);
    var r := FirstSupported(isAssignableFrom, [e] + rs, source, destination);
    var i :| IsFirstMatch(isAssignableFrom, [e] + rs, source, destination, i) && ([e] + rs)[i] == r.value;
    FirstMatchUnique(isAssignableFrom, [e] + rs, source, destination, 0, i);
  }

  lemma AddLastDefers<K, T>(isAssignableFrom: (K, K) -> bool, rs: seq<Entry<K, T>>, e: Entry<K, T>, source: K, destination: K)
    ensures var old_ := FirstSupported(isAssignableFrom, rs, source, destination);
      FirstSupported(isAssignableFrom, rs + [e], source, destination)
        == if old_.Some? then old_
           else if Accepts(isAssignableFrom, e, source, destination) then Some(e) else None
  {
    WhereConcat(isAssignableFrom, rs, [e], source, destination);
    assert [e][1..] == [];
  }

  /**
   * The scenario: register (Base, Base) -> v1 at the back, then
   * (Derived, Derived) -> v2 in front. With Derived not assignable from
   * Base, each pair resolves to its own value.
   */
  method Scenario<K(==), T>(isAssignableFrom: (K, K) -> bool, base: K, derived: K, v1: T, v2: T)
    returns (forDerived: Option<T>, forBase: Option<T>)
    requires isAssignableFrom(base, base) && isAssignableFrom(derived, derived)
    requires !isAssignableFrom(derived, base)
    ensures forDerived == Some(v2) && forBase == Some(v1)
  {
    var d := new TypeCombinationDictionary(isAssignableFrom);
    d.AddLast(base, base, v1);
    d.AddFirst(derived, derived, v2);
    assert d.registrations == [Entry(derived, derived, v2), Entry(base, base, v1)];
    var found;
    found, forDerived := d.TryGetSupported(derived, derived);
    assert IsFirstMatch(isAssignableFrom, d.registrations, derived, derived, 0);
    found, forBase := d.TryGetSupported(base, base);
    assert IsFirstMatch(isAssignableFrom, d.registrations, base, base, 1);
  }
}
