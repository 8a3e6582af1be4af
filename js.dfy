/** JavaScript values that both halves of the stylesheet-sync engine work
    with: `undefined` (as `Option`), `Array.prototype.join`, and style
    objects, which map CSS property names to values.

    A style object is modelled as the list of its declarations in the order
    JavaScript enumerates them. CSS property names are never integer-like, so
    that order is insertion order, and a JavaScript object never holds the
    same key twice, which the `Style` type requires. */
module Js {

  datatype Option<+T> = None | Some(value: T)

  /** `Math.min` and `Math.max` on lengths and indices. */
  function Min(a: nat, b: nat): nat { if a <= b then a else b }
  function Max(a: nat, b: nat): nat { if a <= b then b else a }

  /** `parts.join(sep)`. */
  function Join(parts: seq<string>, sep: string): (r: string)
    ensures parts == [] ==> r == ""
    ensures |parts| == 1 ==> r == parts[0]
    decreases |parts|
  {
    if parts == [] then ""
    else if |parts| == 1 then parts[0]
    else Join(parts[..|parts| - 1], sep) + sep + parts[|parts| - 1]
  }

  /** Joining a list that starts with `first` puts `first` in front. */
  lemma {:induction false} JoinCons(first: string, rest: seq<string>, sep: string)
    requires rest != []
    ensures Join([first] + rest, sep) == first + sep + Join(rest, sep)
    decreases |rest|
  {
    var parts := [first] + rest;
    if |rest| == 1 {
      assert parts[..1] == [first];
    } else {
      var front := rest[..|rest| - 1];
      assert parts[..|parts| - 1] == [first] + front;
      JoinCons(first, front, sep);
    }
  }

  /** Joining one more part appends the separator and that part. */
  lemma JoinSnoc(parts: seq<string>, last: string, sep: string)
    ensures Join(parts + [last], sep) == if parts == [] then last else Join(parts, sep) + sep + last
  {
    assert (parts + [last])[..|parts|] == parts;
  }

  /** One declaration `property: value` of a style object. */
  datatype Decl = Decl(property: string, value: string)

  /** The property names a declaration list holds. */
  function Keys(s: seq<Decl>): set<string> {
    set k | 0 <= k < |s| :: s[k].property
  }

  /** The keys of a list are those of its first declaration and of the rest. */
  lemma KeysCons(s: seq<Decl>)
    requires s != []
    ensures Keys(s) == {s[0].property} + Keys(s[1..])
  {
    forall p | p in Keys(s) ensures p in {s[0].property} + Keys(s[1..]) {
      var k :| 0 <= k < |s| && s[k].property == p;
      if k > 0 { assert s[1..][k - 1] == s[k]; }
    }
  }

  /** The keys of a concatenation are the keys of both parts. */
  lemma KeysAppend(a: seq<Decl>, b: seq<Decl>)
    ensures Keys(a + b) == Keys(a) + Keys(b)
  {
    forall p | p in Keys(a + b) ensures p in Keys(a) + Keys(b) {
      var k :| 0 <= k < |a + b| && (a + b)[k].property == p;
      if k >= |a| { assert b[k - |a|] == (a + b)[k]; }
    }
    forall p | p in Keys(a) ensures p in Keys(a + b) {
      var k :| 0 <= k < |a| && a[k].property == p;
      assert (a + b)[k] == a[k];
    }
    forall p | p in Keys(b) ensures p in Keys(a + b) {
      var k :| 0 <= k < |b| && b[k].property == p;
      assert (a + b)[k + |a|] == b[k];
    }
  }

  /** No property name occurs twice. */
  predicate Distinct(s: seq<Decl>) {
    forall j, k :: 0 <= j < k < |s| ==> s[j].property != s[k].property
  }

  /** A style object: property names to values, in enumeration order. */
  type Style = s: seq<Decl> | Distinct(s)

  /** Appending a declaration for a property the style lacks keeps the keys distinct. */
  lemma AppendFresh(s: Style, d: Decl)
    requires d.property !in Keys(s)
    ensures Distinct(s + [d])
    ensures Keys(s + [d]) == Keys(s) + {d.property}
  {
    KeysAppend(s, [d]);
    KeysCons([d]);
    assert [d][1..] == [];
    var t := s + [d];
    forall j, k | 0 <= j < k < |t| ensures t[j].property != t[k].property {
      if k == |s| {
        assert t[j] == s[j];
      }
    }
  }

  /** `style[p]`: the value of `p`, or undefined when the style lacks it. */
  function Lookup(s: seq<Decl>, p: string): Option<string> {
    if s == [] then None
    else if s[0].property == p then Some(s[0].value)
    else Lookup(s[1..], p)
  }

  /** A lookup finds a value exactly for the properties the list holds. */
  lemma {:induction false} LookupSome(s: seq<Decl>, p: string)
    ensures Lookup(s, p).Some? <==> p in Keys(s)
    decreases |s|
  {
    if s != [] {
      KeysCons(s);
      LookupSome(s[1..], p);
    }
  }

  /** In a style, every declaration is what looking its property up finds. */
  lemma {:induction false} LookupAt(s: Style, k: int)
    requires 0 <= k < |s|
    ensures Lookup(s, s[k].property) == Some(s[k].value)
  {
    if k > 0 {
      assert s[0].property != s[k].property;
      LookupAt(s[1..], k - 1);
    }
  }

  lemma LookupSingle(d: Decl, p: string)
    ensures Lookup([d], p) == if d.property == p then Some(d.value) else None
  {
    assert [d][1..] == [];
  }

  /** Looking up in a concatenation finds the first part's value first. */
  lemma {:induction false} LookupAppend(a: seq<Decl>, b: seq<Decl>, p: string)
    ensures Lookup(a + b, p) == if p in Keys(a) then Lookup(a, p) else Lookup(b, p)
    decreases |a|
  {
    if a != [] {
      assert (a + b)[1..] == a[1..] + b;
      KeysCons(a);
      LookupAppend(a[1..], b, p);
    } else {
      assert a + b == b;
    }
  }

  /** Two styles hold the same properties with the same values. */
  ghost predicate Equivalent(a: Style, b: Style) {
    forall p :: Lookup(a, p) == Lookup(b, p)
  }

  /** `style[p] = v`: overwrites the value in place when `p` is present,
      otherwise adds `p` at the end of the enumeration order. */
  function Assign(s: seq<Decl>, p: string, v: string): (r: seq<Decl>)
    ensures Lookup(r, p) == Some(v)
    ensures forall q :: q != p ==> Lookup(r, q) == Lookup(s, q)
    ensures Keys(r) == Keys(s) + {p}
    ensures p !in Keys(s) ==> r == s + [Decl(p, v)]
    decreases |s|
  {
    if s == [] then
      KeysCons([Decl(p, v)]);
      [Decl(p, v)]
    else if s[0].property == p then
      var r := [Decl(p, v)] + s[1..];
      assert r[1..] == s[1..];
      KeysCons(s);
      KeysCons(r);
      r
    else
      var tail := Assign(s[1..], p, v);
      var r := [s[0]] + tail;
      assert r[1..] == tail;
      assert forall q :: q != p ==> Lookup(r, q) == Lookup(s, q) by {
        assert r[0] == s[0];
      }
      KeysCons(s);
      KeysCons(r);
      assert p !in Keys(s) ==> r == s + [Decl(p, v)] by {
        if p !in Keys(s) {
          assert s == [s[0]] + s[1..];
        }
      }
      r
  }

  /** A declaration for a fresh property in front of a style keeps the keys distinct. */
  lemma ConsDistinct(d: Decl, tail: seq<Decl>)
    requires Distinct(tail) && d.property !in Keys(tail)
    ensures Distinct([d] + tail)
  {
    var r := [d] + tail;
    forall j, k | 0 <= j < k < |r| ensures r[j].property != r[k].property {
      assert r[k] == tail[k - 1];
      if j == 0 {
        assert r[k].property in Keys(tail);
      } else {
        assert r[j] == tail[j - 1];
      }
    }
  }

  /** Replacing the first declaration by one for the same property keeps the keys distinct. */
  lemma ReplaceHeadDistinct(s: seq<Decl>, d: Decl)
    requires Distinct(s) && s != [] && d.property == s[0].property
    ensures Distinct([d] + s[1..])
  {
    var r := [d] + s[1..];
    forall j, k | 0 <= j < k < |r| ensures r[j].property != r[k].property {
      assert r[k] == s[k];
      if j > 0 { assert r[j] == s[j]; }
    }
  }

  /** Assigning to a property other than the first one assigns in the rest. */
  lemma AssignCons(s: seq<Decl>, p: string, v: string)
    requires s != [] && s[0].property != p
    ensures Assign(s, p, v) == [s[0]] + Assign(s[1..], p, v)
  {
  }

  /** Assigning to the first property replaces its declaration. */
  lemma AssignHead(s: seq<Decl>, p: string, v: string)
    requires s != [] && s[0].property == p
    ensures Assign(s, p, v) == [Decl(p, v)] + s[1..]
  {
  }

  /** Assigning a property keeps a style's keys distinct. */
  lemma {:induction false} AssignDistinct(s: Style, p: string, v: string)
    ensures Distinct(Assign(s, p, v))
    decreases |s|
  {
    if s != [] && s[0].property != p {
      var tail := Assign(s[1..], p, v);
      assert Distinct(tail) by { AssignDistinct(s[1..], p, v); }
      assert s[0].property !in Keys(tail) by {
        KeysCons(s);
        assert s[0].property !in Keys(s[1..]);
      }
      ConsDistinct(s[0], tail);
      AssignCons(s, p, v);
    } else if s != [] {
      ReplaceHeadDistinct(s, Decl(p, v));
      AssignHead(s, p, v);
    }
  }

  /** Assigning never moves a property: every declaration keeps its position. */
  lemma {:induction false} AssignKeepsPositions(s: seq<Decl>, p: string, v: string)
    ensures |Assign(s, p, v)| >= |s|
    ensures forall a :: 0 <= a < |s| ==> Assign(s, p, v)[a].property == s[a].property
    decreases |s|
  {
    var r := Assign(s, p, v);
    if s != [] && s[0].property != p {
      var tail := Assign(s[1..], p, v);
      AssignKeepsPositions(s[1..], p, v);
      AssignCons(s, p, v);
      assert r == [s[0]] + tail;
      forall a | 0 <= a < |s| ensures r[a].property == s[a].property {
        if a > 0 {
          assert r[a] == tail[a - 1];
          assert s[1..][a - 1] == s[a];
        }
      }
    } else if s != [] {
      AssignHead(s, p, v);
      assert r == [Decl(p, v)] + s[1..];
      forall a | 0 <= a < |s| ensures r[a].property == s[a].property {
        if a > 0 { assert r[a] == s[a]; }
      }
    }
  }
}
