/**
 * The browser's `URLSearchParams` as the web pages use it: an ordered list of name–value pairs
 * in which a name may repeat, read with `get`, changed with `set` and `delete`.
 */
module SearchParams {
  import opened Wrappers

  type Params = seq<(string, string)>

  /** `get(name)`: the value of the first pair with that name, or nothing. */
  function Get(ps: Params, name: string): (r: Option<string>)
    ensures r.Some? ==> (name, r.value) in ps
    ensures r.None? <==> forall i :: 0 <= i < |ps| ==> ps[i].0 != name
    decreases |ps|
  {
    if |ps| == 0 then None
    else if ps[0].0 == name then Some(ps[0].1)
    else
      var r := Get(ps[1..], name);
      assert forall i :: 1 <= i < |ps| ==> ps[i] == ps[1..][i - 1];
      r
  }

  /** How many pairs carry the name. */
  function Named(ps: Params, name: string): nat
    decreases |ps|
  {
    if |ps| == 0 then 0 else (if ps[0].0 == name then 1 else 0) + Named(ps[1..], name)
  }

  /** Looking up in a list that starts with `p`. */
  lemma GetCons(p: (string, string), ps: Params, name: string)
    ensures Get([p] + ps, name) == if p.0 == name then Some(p.1) else Get(ps, name)
  {
    assert ([p] + ps)[1..] == ps;
  }

  lemma NamedCons(p: (string, string), ps: Params, name: string)
    ensures Named([p] + ps, name) == (if p.0 == name then 1 else 0) + Named(ps, name)
  {
    assert ([p] + ps)[1..] == ps;
  }

  /**
   * `delete(name)`: every pair with the name removed, the others kept in order. Lookups of other
   * names see no change.
   */
  function Delete(ps: Params, name: string): (r: Params)
    ensures Get(r, name) == None && Named(r, name) == 0
    ensures forall n :: n != name ==> Get(r, n) == Get(ps, n)
    ensures forall n :: n != name ==> Named(r, n) == Named(ps, n)
    decreases |ps|
  {
    if |ps| == 0 then []
    else
      var rest := Delete(ps[1..], name);
      if ps[0].0 == name then rest
      else
        var r := [ps[0]] + rest;
        forall n ensures Get(r, n) == (if n == name then None else Get(ps, n)) {
          GetCons(ps[0], rest, n);
          GetCons(ps[0], ps[1..], n);
        }
        forall n ensures Named(r, n) == (if n == name then 0 else Named(ps, n)) {
          NamedCons(ps[0], rest, n);
          NamedCons(ps[0], ps[1..], n);
        }
        r
  }

  /**
   * `set(name, value)`: the first pair with the name takes the value and the later ones go; with
   * no such pair, the pair is appended. Afterwards exactly one pair has the name, lookups of other
   * names see no change, and the other pairs keep their order.
   */
  function Set(ps: Params, name: string, value: string): (r: Params)
    ensures Get(r, name) == Some(value) && Named(r, name) == 1
    ensures forall n :: n != name ==> Get(r, n) == Get(ps, n)
    ensures Delete(r, name) == Delete(ps, name)
    decreases |ps|
  {
    if |ps| == 0 then
      NamedCons((name, value), [], name);
      [(name, value)]
    else if ps[0].0 == name then
      var rest := Delete(ps[1..], name);
      var r := [(name, value)] + rest;
      GetCons((name, value), rest, name);
      NamedCons((name, value), rest, name);
      forall n | n != name ensures Get(r, n) == Get(ps, n) {
        GetCons((name, value), rest, n);
        GetCons(ps[0], ps[1..], n);
      }
      assert r[1..] == rest;
      assert Delete(rest, name) == rest by {
        DeleteAbsent(rest, name);
      }
      r
    else
      var rest := Set(ps[1..], name, value);
      var r := [ps[0]] + rest;
      GetCons(ps[0], rest, name);
      NamedCons(ps[0], rest, name);
      forall n | n != name ensures Get(r, n) == Get(ps, n) {
        GetCons(ps[0], rest, n);
        GetCons(ps[0], ps[1..], n);
      }
      assert r[1..] == rest;
      r
  }

  /** Deleting a name no pair carries changes nothing. */
  lemma {:induction false} DeleteAbsent(ps: Params, name: string)
    requires Named(ps, name) == 0
    ensures Delete(ps, name) == ps
    decreases |ps|
  {
    if |ps| > 0 {
      DeleteAbsent(ps[1..], name);
      assert ps == [ps[0]] + ps[1..];
    }
  }

  /** A truthy value: present and not the empty string. */
  predicate Given(s: Option<string>) {
    s.Some? && s.value != ""
  }
}
