/** The element base class: each declared property `key` is stored under
    the backing key `"__backing_" + key`; setting a backing key to a new
    value stores it and, while the element is connected, re-renders and
    reports the old value to `updated`. */
module BaseElement {
  import opened Wrappers

  const BackingKeyPrefix: string := "__backing_"

  /** `toBackingKey`. */
  function ToBackingKey(key: string): (b: string)
    ensures |b| == |BackingKeyPrefix| + |key|
    ensures b[..|BackingKeyPrefix|] == BackingKeyPrefix && b[|BackingKeyPrefix|..] == key
  {
    BackingKeyPrefix + key
  }

  /** `isBackingKey`: the anchored pattern `^__backing_` matches, that is,
      the key starts with the prefix. */
  predicate IsBackingKey(key: string)
  {
    |BackingKeyPrefix| <= |key| && key[..|BackingKeyPrefix|] == BackingKeyPrefix
  }

  /** Whether `pattern` occurs in `s` at position `i`. */
  predicate OccursAt(s: string, pattern: string, i: nat)
  {
    i + |pattern| <= |s| && s[i..i + |pattern|] == pattern
  }

  /** The position of the first occurrence of `pattern` in `s`, or -1. */
  function FirstOccurrence(s: string, pattern: string): (i: int)
    ensures -1 <= i
    ensures i >= 0 ==> OccursAt(s, pattern, i)
    ensures i >= 0 ==> forall j: nat :: j < i ==> !OccursAt(s, pattern, j)
    ensures i == -1 ==> forall j: nat :: !OccursAt(s, pattern, j)
  {
    if |s| < |pattern| then
      assert forall j: nat :: !OccursAt(s, pattern, j);
      -1
    else if s[..|pattern|] == pattern then 0
    else
      var k := FirstOccurrence(s[1..], pattern);
      assert !OccursAt(s, pattern, 0);
      if k == -1 then
        assert forall j: nat :: !OccursAt(s, pattern, j) by {
          forall j: nat ensures !OccursAt(s, pattern, j) {
            if j > 0 { OccursShift(s, pattern, j - 1); }
          }
        }
        -1
      else
        assert OccursAt(s, pattern, k + 1) by { OccursShift(s, pattern, k); }
        assert forall j: nat :: j < k + 1 ==> !OccursAt(s, pattern, j) by {
          forall j: nat | j < k + 1 ensures !OccursAt(s, pattern, j) {
            if j > 0 { OccursShift(s, pattern, j - 1); }
          }
        }
        k + 1
  }

  /** An occurrence one place further into `s` is an occurrence in `s`
      without its first character. */
  lemma OccursShift(s: string, pattern: string, j: nat)
    requires |s| > 0
    ensures OccursAt(s, pattern, j + 1) <==> OccursAt(s[1..], pattern, j)
  {
    if j + 1 + |pattern| <= |s| {
      assert s[1..][j..j + |pattern|] == s[j + 1..j + 1 + |pattern|];
    }
  }

  /** `fromBackingKey`: `String.replace` with a string pattern removes the
      first occurrence of the prefix, wherever it is, and leaves a key
      without one unchanged. */
  function FromBackingKey(backingKey: string): (key: string)
    ensures FirstOccurrence(backingKey, BackingKeyPrefix) == -1 ==> key == backingKey
    ensures var i := FirstOccurrence(backingKey, BackingKeyPrefix);
      i >= 0 ==> (|key| == |backingKey| - |BackingKeyPrefix|
        && key == backingKey[..i] + backingKey[i + |BackingKeyPrefix|..])
  {
    var i := FirstOccurrence(backingKey, BackingKeyPrefix);
    if i == -1 then backingKey
    else backingKey[..i] + backingKey[i + |BackingKeyPrefix|..]
  }

  /** Every backing key is recognised as one. */
  lemma BackingKeyRecognised(key: string)
    ensures IsBackingKey(ToBackingKey(key))
  {
  }

  /** Stripping a key that starts with the prefix removes exactly that
      leading prefix. */
  lemma StripLeadingPrefix(backingKey: string)
    requires IsBackingKey(backingKey)
    ensures FromBackingKey(backingKey) == backingKey[|BackingKeyPrefix|..]
  {
    assert OccursAt(backingKey, BackingKeyPrefix, 0);
  }

  /** Round trip: the property key comes back from its backing key. */
  lemma BackingKeyRoundTrip(key: string)
    ensures FromBackingKey(ToBackingKey(key)) == key
  {
    StripLeadingPrefix(ToBackingKey(key));
  }

  /** `isBackingKey` holds exactly for the keys some property key maps to. */
  lemma BackingKeysAreImages(backingKey: string)
    ensures IsBackingKey(backingKey) <==> exists key :: ToBackingKey(key) == backingKey
  {
    if IsBackingKey(backingKey) {
      var key := backingKey[|BackingKeyPrefix|..];
      assert backingKey == backingKey[..|BackingKeyPrefix|] + key;
      assert ToBackingKey(key) == backingKey;
    }
  }

  /** Only the first occurrence goes: in a property key that itself holds
      the prefix, the second copy survives the round trip. */
  lemma OnlyFirstOccurrenceRemoved(rest: string)
    ensures FromBackingKey(ToBackingKey(BackingKeyPrefix + rest)) == BackingKeyPrefix + rest
  {
    BackingKeyRoundTrip(BackingKeyPrefix + rest);
  }

  /** A prefix in the middle of a key that does not start with it is
      removed as well: `"a__backing_b"` becomes `"ab"`. */
  lemma MiddleOccurrenceRemoved()
    ensures !IsBackingKey("a__backing_b") && FromBackingKey("a__backing_b") == "ab"
  {
    var s := "a__backing_b";
    assert OccursAt(s, BackingKeyPrefix, 1);
    assert s[0..|BackingKeyPrefix|][0] == 'a' != BackingKeyPrefix[0];
    assert !OccursAt(s, BackingKeyPrefix, 0);
    assert FirstOccurrence(s, BackingKeyPrefix) == 1;
  }

  /** A call of `updated` with the plain key and the value it replaced. */
  datatype Update<V> = Update(key: string, oldValue: Option<V>)

  class Element<V(==)> {
    /** The element's own properties under backing keys; a key not in the
        map, and a stored `None`, read as `undefined`. */
    var slots: map<string, Option<V>>
    var isConnected: bool
    /** Number of renders done so far. */
    var renders: nat
    /** The calls of `updated` so far, oldest first. */
    var updates: seq<Update<V>>

    /** `element[prop]`. */
    function Read(prop: string): Option<V>
      reads this
    {
      if prop in slots then slots[prop] else None
    }

    constructor ()
      ensures slots == map[] && !isConnected && renders == 0 && updates == []
    {
      slots := map[];
      isConnected := false;
      renders := 0;
      updates := [];
    }

    /** The proxy's `set` trap. A non-backing key and an unchanged value
        leave everything as it was; a new value is stored, and while
        connected the element renders once and `updated` hears of the old
        value under the plain key. The trap always reports success. */
    method Set(prop: string, value: Option<V>) returns (ok: bool)
      modifies this`slots, this`renders, this`updates
      ensures ok
      ensures !IsBackingKey(prop) || old(Read(prop)) == value ==>
        slots == old(slots) && renders == old(renders) && updates == old(updates)
      ensures IsBackingKey(prop) && old(Read(prop)) != value ==>
        && slots == old(slots)[prop := value]
        && renders == old(renders) + (if isConnected then 1 else 0)
        && updates == old(updates)
             + (if isConnected then [Update(FromBackingKey(prop), old(Read(prop)))] else [])
    {
      ok := true;
      if !IsBackingKey(prop) {
        return;
      }
      if Read(prop) == value {
        return;
      }
      var oldValue := Read(prop);
      slots := slots[prop := value];
      if isConnected {
        renders := renders + 1;
        updates := updates + [Update(FromBackingKey(prop), oldValue)];
      }
    }

    /** The property setter that `Object.defineProperty` installs for a
        declared key: it goes through the trap with the backing key, so
        `updated` hears the declared key itself. */
    method SetProperty(key: string, value: Option<V>)
      modifies this`slots, this`renders, this`updates
      ensures var b := ToBackingKey(key);
        && (old(Read(b)) == value ==>
              slots == old(slots) && renders == old(renders) && updates == old(updates))
        && (old(Read(b)) != value ==>
              && slots == old(slots)[b := value]
              && renders == old(renders) + (if isConnected then 1 else 0)
              && updates == old(updates) + (if isConnected then [Update(key, old(Read(b)))] else []))
    {
      BackingKeyRecognised(key);
      BackingKeyRoundTrip(key);
      var _ := Set(ToBackingKey(key), value);
    }

    /** `connectedCallback`: mark connected and render. */
    method ConnectedCallback()
      modifies this`isConnected, this`renders
      ensures isConnected && renders == old(renders) + 1
    {
      isConnected := true;
      renders := renders + 1;
    }

    /** `disconnectedCallback`: mark disconnected. */
    method DisconnectedCallback()
      modifies this`isConnected
      ensures !isConnected
    {
      isConnected := false;
    }
  }
}
