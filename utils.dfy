/** The key classifiers that `updateDom` filters props with. */
module Utils {
  import opened Values

  /** `key.startsWith("on")`. */
  predicate IsEvent(key: string)
  {
    |key| >= 2 && key[..2] == "on"
  }

  /** A key that is assigned to the DOM node as a property. */
  predicate IsProperty(key: string)
  {
    key != CHILDREN && !IsEvent(key)
  }

  /** `isNew(oldProps, newProps)(key)`: the two objects disagree at `key`
      (an absent key reads as `undefined`). */
  predicate IsNew(oldProps: Props, newProps: Props, key: string)
  {
    Lookup(oldProps, key) != Lookup(newProps, key)
  }

  /** `isGone(key, oldProps)`, as written: `!(key in oldProps)`. */
  predicate IsGone(key: string, oldProps: Props)
  {
    Lookup(oldProps, key).None?
  }

  /** An event key is exactly `"on"` followed by the rest of the key. */
  lemma EventIsOnPrefix(key: string)
    ensures IsEvent(key) <==> exists rest :: key == "on" + rest
  {
    if IsEvent(key) {
      assert key == "on" + key[2..];
    }
  }

  /** No key is both an event and a property, and `children` is neither. */
  lemma ClassesDisjoint(key: string)
    ensures !(IsEvent(key) && IsProperty(key))
    ensures !IsEvent(CHILDREN) && !IsProperty(CHILDREN)
  {
    assert CHILDREN[..2][0] == 'c';
  }

  /** `isNew` does not depend on the order of its two objects, and is false
      where they agree. */
  lemma IsNewSymmetric(a: Props, b: Props, key: string)
    ensures IsNew(a, b, key) <==> IsNew(b, a, key)
    ensures Lookup(a, key) == Lookup(b, key) ==> !IsNew(a, b, key)
  {
  }

  /** `isGone(key, oldProps)` is false for every key that `Object.keys(oldProps)`
      yields: the filter it is used in keeps nothing. */
  lemma IsGoneNeverOnOwnKeys(oldProps: Props, key: string)
    requires key in Keys(oldProps)
    ensures !IsGone(key, oldProps)
  {
    LookupPresent(oldProps, key);
  }
}
