/**
  `extend(obj, def)`: copy into `obj` every own property of `def` that
  `obj` does not already have as an own property, then return `obj`.
  A JavaScript object is modelled by the map of its own properties; the
  prototype chain is not modelled.
 */
module Extend {

  /** A JavaScript object, reduced to its own properties. */
  class JsObject<V> {
    var own: map<string, V>

    constructor (props: map<string, V>)
      ensures own == props
    {
      own := props;
    }
  }

  /** The own properties `extend` leaves on `obj`, given those of `obj` and of `def`. */
  function Merged<V>(obj: map<string, V>, def: map<string, V>): (r: map<string, V>)
    ensures r.Keys == obj.Keys + def.Keys
    ensures forall p | p in obj :: r[p] == obj[p]
    ensures forall p | p in def && p !in obj :: r[p] == def[p]
  {
    map p | p in obj.Keys + def.Keys :: if p in obj then obj[p] else def[p]
  }

  /** `Merged` restricted to the properties of `def` in `done`: the state after visiting `done`. */
  function MergedOn<V>(obj: map<string, V>, def: map<string, V>, done: set<string>): (r: map<string, V>)
    requires done <= def.Keys
    ensures r.Keys == obj.Keys + done
    ensures forall p | p in obj :: r[p] == obj[p]
    ensures forall p | p in done && p !in obj :: r[p] == def[p]
  {
    map p | p in obj.Keys + done :: if p in obj then obj[p] else def[p]
  }

  /** Visiting one more property of `def`: it is added unless `obj` already had it. */
  lemma MergedOnStep<V>(obj: map<string, V>, def: map<string, V>, done: set<string>, p: string)
    requires done <= def.Keys && p in def && p !in done
    ensures var m := MergedOn(obj, def, done);
      MergedOn(obj, def, done + {p}) == if p in m then m else m[p := def[p]]
  {
  }

  lemma MergedOnAll<V>(obj: map<string, V>, def: map<string, V>)
    ensures MergedOn(obj, def, def.Keys) == Merged(obj, def)
  {
  }

  /**
    The `for (var prop in def)` loop. Properties are visited in an order the
    model leaves open (`:|`); every order gives the same result. `obj` and
    `def` may be the same object.
   */
  method Extend<V>(obj: JsObject<V>, def: JsObject<V>) returns (r: JsObject<V>)
    modifies obj
    ensures r == obj
    ensures obj.own == Merged(old(obj.own), old(def.own))
    ensures def != obj ==> def.own == old(def.own)
  {
    var pending := def.own.Keys;
    ghost var done: set<string> := {};
    while pending != {}
      invariant pending + done == old(def.own).Keys && pending !! done
      invariant obj.own == MergedOn(old(obj.own), old(def.own), done)
      invariant def != obj ==> def.own == old(def.own)
      decreases pending
    {
      var prop :| prop in pending;
      MergedOnStep(old(obj.own), old(def.own), done, prop);
      if prop !in obj.own {
        obj.own := obj.own[prop := def.own[prop]];
      }
      pending := pending - {prop};
      done := done + {prop};
    }
    MergedOnAll(old(obj.own), old(def.own));
    r := obj;
  }

  /** Extending twice with the same defaults changes nothing the second time. */
  lemma MergedIdempotent<V>(obj: map<string, V>, def: map<string, V>)
    ensures Merged(Merged(obj, def), def) == Merged(obj, def)
  {
  }

  /** Extending an object with itself leaves it as it is. */
  lemma MergedSelf<V>(obj: map<string, V>)
    ensures Merged(obj, obj) == obj
  {
  }
}
