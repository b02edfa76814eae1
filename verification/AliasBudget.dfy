/** What the alias budget `hops` of `Serializer` stands for: it only matters to circular aliases. */
module AliasBudget {
  import opened Bytes
  import opened Types
  import opened Serializer

  // ---- More budget ----

  /** The same codec with at least as large a budget. */
  ghost predicate Larger(c: Codec, d: Codec) {
    Closed(c.types) && d.types == c.types && d.lookup == c.lookup && d.hops >= c.hops
  }

  /** A larger budget changes nothing but an overflow. */
  lemma {:induction false} LargerEncodes(c: Codec, d: Codec, t: nat, v: Value, fuel: nat, more: nat)
    requires Larger(c, d) && t in c.types && more >= fuel && Encode(c, t, v, fuel) != Err(StackOverflow)
    ensures Encode(d, t, v, more) == Encode(c, t, v, fuel)
    decreases if v.Null? then 0 else 1, v, fuel, 2, 0
  {
    var ty := c.types[t];
    if ty.isOptional && v.Null? {
    } else if !ty.isArray {
      LargerEncodesInner(c, d, t, v, !v.Null?, fuel, more);
    } else if v.Arr? {
      LargerEncodesElems(c, d, t, v.elems);
    }
  }

  lemma {:induction false} LargerEncodesElems(c: Codec, d: Codec, t: nat, es: seq<Value>)
    requires Larger(c, d) && t in c.types && EncodeElems(c, t, es) != Err(StackOverflow)
    ensures EncodeElems(d, t, es) == EncodeElems(c, t, es)
    decreases 1, es, 0, 0, 0
  {
    hide EncodeInner;
    if es != [] {
      LargerEncodesInner(c, d, t, es[0], true, c.hops, d.hops);
      if EncodeInner(c, t, es[0], true, c.hops).Ok? {
        LargerEncodesElems(c, d, t, es[1..]);
      }
    }
  }

  lemma {:induction false} LargerEncodesInner(
    c: Codec, d: Codec, t: nat, v: Value, exists_: bool, fuel: nat, more: nat)
    requires Larger(c, d) && t in c.types && more >= fuel && EncodeInner(c, t, v, exists_, fuel) != Err(StackOverflow)
    ensures EncodeInner(d, t, v, exists_, more) == EncodeInner(c, t, v, exists_, fuel)
    decreases if v.Null? then 0 else 1, v, fuel, 1, 0
  {
    var ty := c.types[t];
    if IsAlias(c, t) {
      LargerEncodes(c, d, ty.shape.ref, v, fuel - 1, more - 1);
    } else if exists_ && ty.name !in c.lookup {
      match ty.shape
      case Struct(_, _) =>
        if v.Obj? && AllFields(c.types, t).Some? {
          LargerEncodesFields(c, d, AllFields(c.types, t).value, v);
        }
      case Variant(cases) =>
        if v.Tagged? {
          var k := CaseOf(c.types, cases, v.tag, 0);
          if k.Some? {
            LargerEncodes(c, d, cases[k.value], v.value, c.hops, d.hops);
          }
        }
      case _ =>
    }
  }

  lemma {:induction false} LargerEncodesFields(c: Codec, d: Codec, fs: seq<Field>, v: Value)
    requires Larger(c, d) && v.Obj? && forall i :: 0 <= i < |fs| ==> fs[i].typ in c.types
    requires EncodeFields(c, fs, v) != Err(StackOverflow)
    ensures EncodeFields(d, fs, v) == EncodeFields(c, fs, v)
    decreases 1, v, 0, 0, |fs|
  {
    hide Encode;
    if fs != [] {
      LargerEncodes(c, d, fs[0].typ, Property(v, fs[0].name), c.hops, d.hops);
      if Encode(c, fs[0].typ, Property(v, fs[0].name), c.hops).Ok? {
        LargerEncodesFields(c, d, fs[1..], v);
      }
    }
  }

  // ---- Overflow ----

  /** `n` alias links and one more can be followed from `t`. */
  predicate Chain(c: Codec, t: nat, n: nat)
    requires Closed(c.types) && t in c.types
    decreases n
  {
    IsAlias(c, t) && (n == 0 || Chain(c, c.types[t].shape.ref, n - 1))
  }

  ghost predicate SomeChain(c: Codec, n: nat)
    requires Closed(c.types)
  {
    exists u :: u in c.types && Chain(c, u, n)
  }

  /** Encoding overflows only where a chain of aliases is as long as the budget. */
  lemma {:induction false} OverflowChain(c: Codec, t: nat, v: Value, fuel: nat)
    requires Closed(c.types) && t in c.types && Encode(c, t, v, fuel) == Err(StackOverflow)
    ensures Chain(c, t, fuel) || SomeChain(c, c.hops)
    decreases if v.Null? then 0 else 1, v, fuel, 2, 0
  {
    if !c.types[t].isArray {
      OverflowChainInner(c, t, v, !v.Null?, fuel);
    } else {
      OverflowChainElems(c, t, v.elems);
    }
  }

  lemma {:induction false} OverflowChainElems(c: Codec, t: nat, es: seq<Value>)
    requires Closed(c.types) && t in c.types && EncodeElems(c, t, es) == Err(StackOverflow)
    ensures SomeChain(c, c.hops)
    decreases 1, es, 0, 0, 0
  {
    if EncodeInner(c, t, es[0], true, c.hops) == Err(StackOverflow) {
      OverflowChainInner(c, t, es[0], true, c.hops);
    } else {
      OverflowChainElems(c, t, es[1..]);
    }
  }

  lemma {:induction false} OverflowChainInner(c: Codec, t: nat, v: Value, exists_: bool, fuel: nat)
    requires Closed(c.types) && t in c.types && EncodeInner(c, t, v, exists_, fuel) == Err(StackOverflow)
    ensures Chain(c, t, fuel) || SomeChain(c, c.hops)
    decreases if v.Null? then 0 else 1, v, fuel, 1, 0
  {
    var ty := c.types[t];
    if IsAlias(c, t) {
      if fuel > 0 {
        OverflowChain(c, ty.shape.ref, v, fuel - 1);
      }
    } else if exists_ && ty.name !in c.lookup {
      match ty.shape
      case Struct(_, _) =>
        OverflowChainFields(c, AllFields(c.types, t).value, v);
      case Variant(cases) =>
        var k := CaseOf(c.types, cases, v.tag, 0).value;
        OverflowChain(c, cases[k], v.value, c.hops);
      case _ =>
    }
  }

  lemma {:induction false} OverflowChainFields(c: Codec, fs: seq<Field>, v: Value)
    requires Closed(c.types) && v.Obj? && forall i :: 0 <= i < |fs| ==> fs[i].typ in c.types
    requires EncodeFields(c, fs, v) == Err(StackOverflow)
    ensures SomeChain(c, c.hops)
    decreases 1, v, 0, 0, |fs|
  {
    hide Encode;
    if Encode(c, fs[0].typ, Property(v, fs[0].name), c.hops) == Err(StackOverflow) {
      OverflowChain(c, fs[0].typ, Property(v, fs[0].name), c.hops);
    } else {
      OverflowChainFields(c, fs[1..], v);
    }
  }

  // ---- A long chain is a cycle ----

  /** Where `k` alias links lead from `t`. */
  function Follow(c: Codec, t: nat, k: nat): (u: Option<nat>)
    requires Closed(c.types) && t in c.types
    ensures u.Some? ==> u.value in c.types
    decreases k
  {
    if k == 0 then Some(t) else if IsAlias(c, t) then Follow(c, c.types[t].shape.ref, k - 1) else None
  }

  ghost predicate Leads(c: Codec, t: nat, u: nat)
    requires Closed(c.types) && t in c.types
  {
    exists k: nat :: k > 0 && Follow(c, t, k) == Some(u)
  }

  /** An alias that leads back to itself. */
  ghost predicate CircularAlias(c: Codec)
    requires Closed(c.types)
  {
    exists t :: t in c.types && Leads(c, t, t)
  }

  lemma {:induction false} FollowOn(c: Codec, t: nat, k: nat)
    requires Closed(c.types) && t in c.types && Follow(c, t, k).Some? && IsAlias(c, Follow(c, t, k).value)
    ensures Follow(c, t, k + 1) == Some(c.types[Follow(c, t, k).value].shape.ref)
    decreases k
  {
    if k > 0 {
      FollowOn(c, c.types[t].shape.ref, k - 1);
    }
  }

  /** Without one, a chain visits a new type at every link. */
  lemma {:induction false} ChainLength(c: Codec, t: nat, n: nat, seen: set<nat>)
    requires Closed(c.types) && t in c.types && Chain(c, t, n) && !CircularAlias(c)
    requires seen <= c.types.Keys && forall w :: w in seen ==> Leads(c, w, t)
    ensures |seen| + n + 1 <= |c.types|
    decreases n
  {
    assert t !in seen;
    var more := seen + {t};
    if n == 0 {
      assert |more| <= |c.types.Keys| by { SubsetSize(more, c.types.Keys); }
    } else {
      var ref := c.types[t].shape.ref;
      forall w | w in more ensures Leads(c, w, ref) {
        var k: nat :| (w == t && k == 0) || (k > 0 && Follow(c, w, k) == Some(t));
        FollowOn(c, w, k);
      }
      ChainLength(c, ref, n - 1, more);
    }
  }

  lemma {:induction false} SubsetSize<T>(a: set<T>, b: set<T>)
    requires a <= b
    ensures |a| <= |b|
  {
    if a != {} {
      var x :| x in a;
      SubsetSize(a - {x}, b - {x});
    }
  }

  /** With a budget of as many links as there are types, encoding overflows only on a circular alias. */
  lemma OverflowIsCircular(c: Codec, t: nat, v: Value)
    requires Closed(c.types) && t in c.types && c.hops >= |c.types|
    requires Encode(c, t, v, c.hops) == Err(StackOverflow)
    ensures CircularAlias(c)
  {
    OverflowChain(c, t, v, c.hops);
    var u :| u in c.types && Chain(c, u, c.hops);
    if !CircularAlias(c) {
      ChainLength(c, u, c.hops, {});
    }
  }
}
