/**
  The part of the browser's `URLSearchParams` the frontend uses: an ordered
  list of (name, value) pairs, `append`, `set` and `get`. Percent-encoding
  in `toString` is not modelled; a query string is its list of pairs.
 */
module QueryParams {
  import opened Common

  type Params = seq<(string, string)>

  function Names(ps: Params): (r: seq<string>)
    ensures |r| == |ps|
    ensures forall i :: 0 <= i < |ps| ==> r[i] == ps[i].0
  {
    seq(|ps|, i requires 0 <= i < |ps| => ps[i].0)
  }

  /** `get`: the value of the first pair with that name. */
  function Get(ps: Params, name: string): (r: Option<string>)
    ensures r.None? <==> name !in Names(ps)
    ensures r.Some? ==> (name, r.value) in ps
    decreases |ps|
  {
    if |ps| == 0 then None
    else if ps[0].0 == name then Some(ps[0].1)
    else
      var r := Get(ps[1..], name);
      assert Names(ps) == [ps[0].0] + Names(ps[1..]);
      r
  }

  /** `append`: a pair added at the end, whatever is there already. */
  function Append(ps: Params, name: string, value: string): (r: Params)
    ensures Names(r) == Names(ps) + [name]
    ensures name !in Names(ps) ==> Get(r, name) == Some(value)
    ensures forall n :: n != name ==> Get(r, n) == Get(ps, n)
  {
    var r := ps + [(name, value)];
    GetAppend(ps, name, value);
    assert Names(r) == Names(ps) + [name];
    r
  }

  lemma {:induction false} GetAppend(ps: Params, name: string, value: string)
    ensures name !in Names(ps) ==> Get(ps + [(name, value)], name) == Some(value)
    ensures forall n :: n != name ==> Get(ps + [(name, value)], n) == Get(ps, n)
    decreases |ps|
  {
    if |ps| > 0 {
      assert (ps + [(name, value)])[1..] == ps[1..] + [(name, value)];
      assert Names(ps) == [ps[0].0] + Names(ps[1..]);
      GetAppend(ps[1..], name, value);
    }
  }

  /** All pairs but those with `name`. */
  function Without(ps: Params, name: string): (r: Params)
    ensures name !in Names(r)
    ensures forall n :: n != name ==> Get(r, n) == Get(ps, n)
    ensures forall n :: n in Names(r) <==> n in Names(ps) && n != name
    decreases |ps|
  {
    if |ps| == 0 then []
    else
      var rest := Without(ps[1..], name);
      assert Names(ps) == [ps[0].0] + Names(ps[1..]);
      if ps[0].0 == name then rest
      else
        assert Names([ps[0]] + rest) == [ps[0].0] + Names(rest);
        [ps[0]] + rest
  }

  lemma NamesConcat(a: Params, b: Params)
    ensures Names(a + b) == Names(a) + Names(b)
  {
  }

  lemma NamesCons(a: Params)
    requires |a| > 0
    ensures Names(a) == [a[0].0] + Names(a[1..])
  {
  }

  /** A name is looked up in the first part before the second. */
  lemma {:induction false} GetConcat(a: Params, b: Params, n: string)
    ensures Get(a + b, n) == (if n in Names(a) then Get(a, n) else Get(b, n))
    ensures Names(a + b) == Names(a) + Names(b)
    decreases |a|
  {
    NamesConcat(a, b);
    if |a| > 0 {
      var ab := a + b;
      assert ab[0] == a[0] && ab[1..] == a[1..] + b;
      NamesCons(a);
      GetConcat(a[1..], b, n);
    } else {
      assert a + b == b;
    }
  }

  /** The position of the first pair with that name. */
  function FirstIndex(ps: Params, name: string): (i: nat)
    requires name in Names(ps)
    ensures i < |ps| && ps[i].0 == name && name !in Names(ps[..i])
    decreases |ps|
  {
    if ps[0].0 == name then 0
    else
      assert Names(ps) == [ps[0].0] + Names(ps[1..]);
      var i := FirstIndex(ps[1..], name);
      assert ps[..i + 1] == [ps[0]] + ps[1..][..i];
      assert Names(ps[..i + 1]) == [ps[0].0] + Names(ps[1..][..i]);
      i + 1
  }

  /** `set`: the first pair with that name takes the value and the others
      with it go; with no such pair, one is appended. */
  function Set(ps: Params, name: string, value: string): (r: Params)
    ensures Get(r, name) == Some(value)
    ensures forall n :: n != name ==> Get(r, n) == Get(ps, n)
    ensures forall n :: n in Names(r) <==> n in Names(ps) || n == name
    ensures name !in Names(ps) ==> r == Append(ps, name, value)
  {
    if name !in Names(ps) then Append(ps, name, value)
    else
      var i := FirstIndex(ps, name);
      var front := ps[..i] + [(name, value)];
      var back := Without(ps[i + 1..], name);
      forall n ensures Get(front + back, n) == (if n == name then Some(value) else Get(ps, n))
        && (n in Names(front + back) <==> n in Names(ps) || n == name)
      {
        SetParts(ps, i, name, value, n);
      }
      front + back
  }

  lemma SetParts(ps: Params, i: nat, name: string, value: string, n: string)
    requires i < |ps| && ps[i].0 == name && name !in Names(ps[..i])
    ensures var r := ps[..i] + [(name, value)] + Without(ps[i + 1..], name);
      && Get(r, n) == (if n == name then Some(value) else Get(ps, n))
      && (n in Names(r) <==> n in Names(ps) || n == name)
  {
    var pre := ps[..i];
    var post := ps[i + 1..];
    var front := pre + [(name, value)];
    var back := Without(post, name);
    assert ps == pre + [ps[i]] + post;
    GetConcat(front, back, n);
    GetConcat(pre, [(name, value)], n);
    GetConcat(pre + [ps[i]], post, n);
    GetConcat(pre, [ps[i]], n);
    assert Names([ps[i]]) == [name] && Names([(name, value)]) == [name];
    if n == name {
      assert Get([(name, value)], n) == Some(value);
    } else {
      assert Get([(name, value)], n) == None && Get([ps[i]], n) == None;
    }
  }
}
