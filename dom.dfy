/** Vocabulary shared by the page scripts: optional values, class lists,
    `Array.prototype.findIndex` and `Array.prototype.map`. */
module Dom {

  datatype Option<T> = None | Some(value: T)

  /** `element.classList.toggle(name, force)`: `name` is present afterwards
      exactly when `force` holds, and no other class changes. */
  function Toggle(classes: set<string>, name: string, force: bool): (r: set<string>)
    ensures name in r <==> force
    ensures forall c :: c != name ==> (c in r <==> c in classes)
  {
    if force then classes + {name} else classes - {name}
  }

  /** `Array.prototype.findIndex`: the first index whose element satisfies `p`,
      or -1 when there is none. */
  function FindIndex<T>(s: seq<T>, p: T -> bool): (r: int)
    ensures -1 <= r < |s|
    ensures r == -1 <==> forall i | 0 <= i < |s| :: !p(s[i])
    ensures 0 <= r ==> p(s[r]) && forall i | 0 <= i < r :: !p(s[i])
    decreases |s|
  {
    if |s| == 0 then -1
    else if p(s[0]) then 0
    else
      var k := FindIndex(s[1..], p);
      if k == -1 then -1 else k + 1
  }

  /** `Array.prototype.map`: `f` applied to every element, in order. */
  function Map<T, U>(s: seq<T>, f: T -> U): (r: seq<U>)
    ensures |r| == |s| && forall i | 0 <= i < |s| :: r[i] == f(s[i])
    decreases |s|
  {
    if |s| == 0 then [] else [f(s[0])] + Map(s[1..], f)
  }

  /** Mapping a concatenation maps each part. */
  lemma {:induction false} MapAppend<T, U>(a: seq<T>, b: seq<T>, f: T -> U)
    ensures Map(a + b, f) == Map(a, f) + Map(b, f)
  {
    var l, r := Map(a + b, f), Map(a, f) + Map(b, f);
    assert forall i | 0 <= i < |a| :: l[i] == f(a[i]) == r[i];
    assert forall i | |a| <= i < |l| :: l[i] == f(b[i - |a|]) == r[i];
  }
}
