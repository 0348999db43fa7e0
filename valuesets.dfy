/**
 * ValueSet<object>, ArgSet<object> and ArgValueSet<object>: an entry that
 * cannot change after construction, an ordered collection of entries with
 * case-insensitive lookup, and an entry that also owns an argument collection.
 *
 * The private fields are assigned in the constructors and never again, so they
 * are `const` here and the functions over them need no reads clauses.
 */
module ValueSets {
  import opened Wrappers
  import opened Text
  import opened Values

  // ---------------------------------------------------------------------------
  // The lookups, stated over entries

  /** The first position of `s` whose element satisfies `p`. */
  function FirstIndex<T>(s: seq<T>, p: T -> bool): (r: Option<nat>)
    ensures r.None? <==> forall i :: 0 <= i < |s| ==> !p(s[i])
    ensures r.Some? ==> r.value < |s| && p(s[r.value])
    ensures r.Some? ==> forall j :: 0 <= j < r.value ==> !p(s[j])
  {
    if |s| == 0 then None
    else if p(s[0]) then Some(0)
    else match FirstIndex(s[1..], p)
      case None => None
      case Some(i) => Some(i + 1)
  }

  /** The entry's key equals `key` when case is ignored. */
  predicate KeyMatches(e: Entry, key: string)
  {
    EqualsIgnoreCase(e.key, key)
  }

  /** ArgSet.GetValueByKey on a non-null array: the first match's value, else default(object). */
  function Lookup(es: seq<Entry>, key: string): Value
  {
    match FirstIndex(es, (e: Entry) => KeyMatches(e, key))
    case None => VNull
    case Some(i) => es[i].value
  }

  /** ArgSet.KeyHasValue on a non-null array: Equals called on the looked-up value. */
  function HasValue(es: seq<Entry>, key: string, value: Value): Result<bool>
  {
    var tx := Lookup(es, key);
    if tx.VNull? then Failure(NullReference) else Success(tx == value)
  }

  /**
   * Where the scan of GetValueByArgKey stops: at an entry whose key matches
   * and whose value is null (GetType throws) or of the requested type.
   */
  predicate ArgStop(e: Entry, key: string, kind: Kind)
  {
    KeyMatches(e, key) && (e.value.VNull? || KindOf(e.value) == Some(kind))
  }

  /** ArgValueSet.GetValueByArgKey on a non-null array. */
  function ArgLookup(es: seq<Entry>, key: string, kind: Kind): Result<Value>
  {
    match FirstIndex(es, (e: Entry) => ArgStop(e, key, kind))
    case None => Success(DefaultOf(kind))
    case Some(i) => if es[i].value.VNull? then Failure(NullReference) else Success(es[i].value)
  }

  /** The lookup gives the value of the first entry whose key matches. */
  lemma LookupFirst(es: seq<Entry>, key: string, i: nat)
    requires i < |es| && KeyMatches(es[i], key)
    requires forall j :: 0 <= j < i ==> !KeyMatches(es[j], key)
    ensures Lookup(es, key) == es[i].value
  {
    var p := (e: Entry) => KeyMatches(e, key);
    assert p(es[i]);
    var r := FirstIndex(es, p);
    assert KeyMatches(es[r.value], key);
  }

  /** The lookup gives null when no key matches. */
  lemma LookupMissing(es: seq<Entry>, key: string)
    requires forall i :: 0 <= i < |es| ==> !KeyMatches(es[i], key)
    ensures Lookup(es, key) == VNull
  {
    var p := (e: Entry) => KeyMatches(e, key);
    assert forall i :: 0 <= i < |es| ==> !p(es[i]);
  }

  lemma {:induction false} FirstIndexSame<T>(s: seq<T>, p: T -> bool, q: T -> bool)
    requires forall i :: 0 <= i < |s| ==> p(s[i]) == q(s[i])
    ensures FirstIndex(s, p) == FirstIndex(s, q)
  {
    if |s| > 0 && !p(s[0]) {
      FirstIndexSame(s[1..], p, q);
    }
  }

  /** Keys that differ only in letter case look up the same value. */
  lemma LookupIgnoresCase(es: seq<Entry>, k1: string, k2: string)
    requires EqualsIgnoreCase(k1, k2)
    ensures Lookup(es, k1) == Lookup(es, k2)
  {
    FirstIndexSame(es, (e: Entry) => KeyMatches(e, k1), (e: Entry) => KeyMatches(e, k2));
  }

  /** KeyHasValue is true exactly when the first match holds a non-null value equal to the candidate. */
  lemma {:induction false} HasValueTrue(es: seq<Entry>, key: string, value: Value)
    ensures HasValue(es, key, value) == Success(true) <==>
      value != VNull &&
      exists i :: 0 <= i < |es| && KeyMatches(es[i], key) && es[i].value == value &&
        forall j :: 0 <= j < i ==> !KeyMatches(es[j], key)
  {
    var p := (e: Entry) => KeyMatches(e, key);
    var r := FirstIndex(es, p);
    if r.Some? {
      var i := r.value;
      assert p(es[i]);
      forall k | 0 <= k < |es| && KeyMatches(es[k], key) && forall j :: 0 <= j < k ==> !KeyMatches(es[j], key)
        ensures k == i
      {
        assert p(es[k]);
        assert KeyMatches(es[i], key);
      }
    } else {
      forall k | 0 <= k < |es| ensures !KeyMatches(es[k], key) {
        assert !p(es[k]);
      }
    }
  }

  /**
   * An entry whose key matches but whose non-null value has another type is
   * skipped: the lookup goes on as if it were not there.
   */
  lemma ArgLookupSkipsOtherKind(e: Entry, es: seq<Entry>, key: string, kind: Kind)
    requires KeyMatches(e, key) && !e.value.VNull? && KindOf(e.value) != Some(kind)
    ensures ArgLookup([e] + es, key, kind) == ArgLookup(es, key, kind)
  {
    var p := (x: Entry) => ArgStop(x, key, kind);
    assert !p(e);
    assert ([e] + es)[1..] == es;
  }

  /**
   * When every entry with the key holds a non-null value of another type,
   * the lookup returns default(A) and does not fail.
   */
  lemma ArgLookupKindMismatch(es: seq<Entry>, key: string, kind: Kind)
    requires forall i :: 0 <= i < |es| && KeyMatches(es[i], key) ==>
      !es[i].value.VNull? && KindOf(es[i].value) != Some(kind)
    ensures ArgLookup(es, key, kind) == Success(DefaultOf(kind))
  {
    var p := (e: Entry) => ArgStop(e, key, kind);
    assert forall i :: 0 <= i < |es| ==> !p(es[i]);
  }

  /**
   * GetValueByArgKey returns the first value whose key matches and whose type
   * is the one asked for, provided no null value with that key comes first.
   */
  lemma ArgLookupFirstOfKind(es: seq<Entry>, key: string, kind: Kind, i: nat)
    requires i < |es| && KeyMatches(es[i], key) && KindOf(es[i].value) == Some(kind)
    requires forall j :: 0 <= j < i && KeyMatches(es[j], key) ==>
      !es[j].value.VNull? && KindOf(es[j].value) != Some(kind)
    ensures ArgLookup(es, key, kind) == Success(es[i].value)
  {
    var p := (e: Entry) => ArgStop(e, key, kind);
    assert p(es[i]);
    var r := FirstIndex(es, p);
    assert r.Some?;
    assert ArgStop(es[r.value], key, kind);
  }

  // ---------------------------------------------------------------------------
  // ValueSet<object>

  class ValueSet {
    const key: string
    const value: Value

    /** Only the empty-key sentinel has the key "", and its value is null. */
    predicate Valid()
    {
      key == "" ==> value == VNull
    }

    /** The key and the value, unless the key is null or empty. */
    constructor (key: Option<string>, value: Value)
      ensures Valid()
      ensures View() == MakeEntry(key, value)
    {
      if !(key.None? || key.value == "") {
        this.key := key.value;
        this.value := value;
      } else {
        this.key := "";
        this.value := VNull;
      }
    }

    /** The key stored by the constructor; "" only for the sentinel, whose value is null. */
    function GetKey(): (k: string)
      ensures k == View().key
      ensures Valid() && k == "" ==> value == VNull
    {
      key
    }

    /** The value stored by the constructor; null for the sentinel. */
    function GetValue(): (v: Value)
      ensures v == View().value
      ensures Valid() && v != VNull ==> key != ""
    {
      value
    }

    function View(): Entry { Entry(key, value) }
  }

  /**
   * A ValueSet built from a key and a value gives back, through its getters,
   * the key and value when the key is non-empty, and "" with null otherwise.
   */
  method ValueSetGetters(key: Option<string>, value: Value) returns (k: string, v: Value)
    ensures key.Some? && key.value != "" ==> k == key.value && v == value
    ensures key.None? || key.value == "" ==> k == "" && v == VNull
  {
    var s := new ValueSet(key, value);
    k := s.GetKey();
    v := s.GetValue();
  }

  /** The entries an array of ValueSets holds, in order. */
  function Views(vs: seq<ValueSet>): (es: seq<Entry>)
    ensures |es| == |vs|
    ensures forall i :: 0 <= i < |vs| ==> es[i] == Entry(vs[i].key, vs[i].value)
  {
    seq(|vs|, i requires 0 <= i < |vs| => vs[i].View())
  }

  lemma ViewsSnoc(vs: seq<ValueSet>, v: ValueSet)
    ensures Views(vs + [v]) == Views(vs) + [v.View()]
  {
  }

  // ---------------------------------------------------------------------------
  // ArgSet<object>

  class ArgSet {
    /** The array given to the constructor, or null when it was null or had no elements. */
    const vsa: Option<seq<ValueSet>>

    predicate Valid()
    {
      vsa.Some? ==> |vsa.value| > 0
    }

    /** Keeps the array only when it is non-null and has at least one element. */
    constructor (sets: Option<seq<ValueSet>>)
      ensures Valid()
      ensures sets.None? || |sets.value| == 0 ==> vsa.None?
      ensures sets.Some? && |sets.value| > 0 ==> vsa == sets
    {
      if !(sets.None? || |sets.value| <= 0) {
        vsa := sets;
      } else {
        vsa := None;
      }
    }

    /** The array kept by the constructor: null, or an array with at least one element. */
    function GetArgSet(): (r: Option<seq<ValueSet>>)
      ensures r == vsa
      ensures Valid() && r.Some? ==> |r.value| > 0
    {
      vsa
    }

    /**
     * The value of the first entry whose key matches case-insensitively, or
     * null when none does; throws when the array is null.
     */
    method GetValueByKey(key: string) returns (r: Result<Value>)
      ensures vsa.None? ==> r == Failure(NullReference)
      ensures vsa.Some? ==> r == Success(Lookup(Views(vsa.value), key))
    {
      if vsa.None? {
        return Failure(NullReference);
      }
      var sets := vsa.value;
      ghost var es := Views(sets);
      for i := 0 to |sets|
        invariant forall j :: 0 <= j < i ==> !KeyMatches(es[j], key)
      {
        var vs := sets[i];
        if EqualsIgnoreCase(vs.GetKey(), key) {
          assert KeyMatches(es[i], key);
          return Success(vs.GetValue());
        }
      }
      return Success(VNull);
    }

    /**
     * Whether the looked-up value Equals the candidate; throws when the
     * array is null or the looked-up value is null.
     */
    method KeyHasValue(key: string, value: Value) returns (r: Result<bool>)
      ensures vsa.None? ==> r == Failure(NullReference)
      ensures vsa.Some? ==> r == HasValue(Views(vsa.value), key, value)
    {
      var tx := GetValueByKey(key);
      if tx.Failure? {
        return Failure(tx.error);
      }
      if tx.value.VNull? {
        return Failure(NullReference);  // tx.Equals on null
      }
      return Success(tx.value == value);
    }
  }

  /**
   * An ArgSet built from no entries keeps a null array, so looking up any
   * key in it throws NullReferenceException in the foreach.
   */
  method LookupInEmptyArgSet(key: string) returns (r: Result<Value>)
    ensures r == Failure(NullReference)
  {
    var a := new ArgSet(Some([]));
    r := a.GetValueByKey(key);
  }

  // ---------------------------------------------------------------------------
  // ArgValueSet<object>

  class ArgValueSet {
    /** The ValueSet<object> part: key and value. */
    const base: ValueSet
    const argSet: ArgSet

    predicate Valid()
    {
      base.Valid() && argSet.Valid()
    }

    /**
     * ArgValueSet(key, value, argSet): the key and value as ValueSet stores
     * them, and the given argument set, or a new one made from no entries.
     */
    constructor (key: Option<string>, value: Value, argSet: ArgSet?)
      requires argSet != null ==> argSet.Valid()
      ensures Valid()
      ensures base.View() == MakeEntry(key, value)
      ensures argSet != null ==> this.argSet == argSet
      ensures argSet == null ==> fresh(this.argSet) && this.argSet.vsa.None?
    {
      base := new ValueSet(key, value);
      if !(argSet == null) {
        this.argSet := argSet;
      } else {
        this.argSet := new ArgSet(Some([]));
      }
    }

    /** ArgValueSet(key, argSet): as above with default(object), that is null, as the value. */
    constructor WithoutValue(key: Option<string>, argSet: ArgSet?)
      requires argSet != null ==> argSet.Valid()
      ensures Valid()
      ensures base.View() == MakeEntry(key, VNull)
      ensures argSet != null ==> this.argSet == argSet
      ensures argSet == null ==> fresh(this.argSet) && this.argSet.vsa.None?
    {
      base := new ValueSet(key, VNull);
      if !(argSet == null) {
        this.argSet := argSet;
      } else {
        this.argSet := new ArgSet(Some([]));
      }
    }

    /** The key of the ValueSet part. */
    function GetKey(): (k: string)
      ensures k == base.View().key
      ensures Valid() && k == "" ==> base.value == VNull
    {
      base.GetKey()
    }

    /** The value of the ValueSet part. */
    function GetValue(): (v: Value)
      ensures v == base.View().value
      ensures Valid() && v != VNull ==> base.key != ""
    {
      base.GetValue()
    }

    /** The owned argument set: the one given to the constructor, or the default one. */
    function GetArgSet(): (a: ArgSet)
      ensures a == argSet
      ensures Valid() ==> a.Valid()
    {
      argSet
    }

    /**
     * Whether the argument array has no elements. It throws on the null
     * array a default argument set holds, and otherwise is always false,
     * because ArgSet keeps only arrays with elements.
     */
    function IsArgSetEmpty(): (r: Result<bool>)
      requires Valid()
      ensures r.Failure? <==> argSet.vsa.None?
      ensures r.Failure? ==> r.error == NullReference
      ensures r != Success(true)
    {
      match argSet.GetArgSet()
      case None => Failure(NullReference)
      case Some(sets) => Success(|sets| <= 0)
    }

    /** Whether the entry's own value is null; the empty-key sentinel always is. */
    function IsValueEmpty(): (r: bool)
      requires Valid()
      ensures r <==> base.value.VNull?
      ensures base.key == "" ==> r
    {
      GetValue() == VNull
    }

    /**
     * The first argument whose key matches case-insensitively and whose
     * runtime type is `kind`, else default(A); throws when the argument
     * array is null or a matching key holds null.
     */
    method GetValueByArgKey(key: string, kind: Kind) returns (r: Result<Value>)
      ensures argSet.vsa.None? ==> r == Failure(NullReference)
      ensures argSet.vsa.Some? ==> r == ArgLookup(Views(argSet.vsa.value), key, kind)
    {
      var vsa := GetArgSet().GetArgSet();
      if vsa.None? {
        return Failure(NullReference);  // foreach over null
      }
      var sets := vsa.value;
      ghost var es := Views(sets);
      for i := 0 to |sets|
        invariant forall j :: 0 <= j < i ==> !ArgStop(es[j], key, kind)
      {
        var vs := sets[i];
        if EqualsIgnoreCase(vs.GetKey(), key) {
          if vs.GetValue().VNull? {
            assert ArgStop(es[i], key, kind);
            return Failure(NullReference);  // GetType on null
          }
          if KindOf(vs.GetValue()) == Some(kind) {
            assert ArgStop(es[i], key, kind);
            return Success(vs.GetValue());
          }
        }
      }
      return Success(DefaultOf(kind));
    }

    /** KeyHasValue on the argument set. */
    method ContainsArgValue(key: string, o: Value) returns (r: Result<bool>)
      ensures argSet.vsa.None? ==> r == Failure(NullReference)
      ensures argSet.vsa.Some? ==> r == HasValue(Views(argSet.vsa.value), key, o)
    {
      var x := GetArgSet().KeyHasValue(key, o);
      return x;
    }
  }
}
