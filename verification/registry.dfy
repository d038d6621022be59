/** The canonical instance registry: zone identifiers are resolved to zone
    objects, and every identifier that names the same zone yields the very
    same object. Fixed zones are named "UTC" followed by an offset text and
    are keyed by the canonical form of their offset; region zones are named
    by the catalogue of the rule provider. */
module Registry {
  import opened ZoneErrors
  import opened Offsets
  import opened Discontinuities
  import opened Resolution

  /** The identifier of the fixed zone with offset `o`: "UTC" for zero,
      otherwise "UTC" followed by the offset's canonical text. */
  function FixedZoneId(o: Offset): (id: string)
    ensures |id| >= 3 && id[..3] == "UTC"
    ensures id == "UTC" <==> o == 0
  {
    if o == 0 then "UTC" else "UTC" + FormatOffset(o)
  }

  /** A zone as the registry hands it out. Its identity is the object's. */
  class Zone {
    const id: string
    const rules: ZoneRules

    constructor (id: string, rules: ZoneRules)
      ensures this.id == id && this.rules == rules
    {
      this.id := id;
      this.rules := rules;
    }
  }

  /** The canonical key of an identifier and the rules of the zone it names. */
  datatype Entry = Entry(key: string, rules: ZoneRules)

  /** Whether an identifier names a fixed zone: "UTC", possibly followed
      by an offset text. */
  predicate HasUtcPrefix(id: string) {
    |id| >= 3 && id[..3] == "UTC"
  }

  /** Where an identifier leads: "UTC" itself, "UTC" followed by an offset
      text (keyed by the canonical form of the parsed offset), or a region
      name the catalogue knows. It fails with a format error exactly when
      the text after "UTC" is not an offset, and as an unknown zone
      exactly when a name without that prefix is not in the catalogue. */
  function Canonical(id: string, catalogue: map<string, ZoneRules>): (r: Result<Entry>)
    ensures r.Err? ==> r.error == FormatError || r.error == UnknownZone
    ensures r == Err(FormatError) <==> HasUtcPrefix(id) && id != "UTC" && ParseOffset(id[3..]).Err?
    ensures r == Err(UnknownZone) <==> !HasUtcPrefix(id) && id !in catalogue
    ensures !HasUtcPrefix(id) && id in catalogue ==> r == Ok(Entry(id, catalogue[id]))
    ensures r.Ok? && r.value.rules.Fixed? && id !in catalogue ==> r.value.key == FixedZoneId(r.value.rules.offset)
    ensures r.Ok? && r.value.rules.Ruled? ==> id in catalogue && catalogue[id] == r.value.rules
  {
    if id == "UTC" then Ok(Entry("UTC", Fixed(0)))
    else if |id| >= 3 && id[..3] == "UTC" then
      var o :- ParseOffset(id[3..]);
      Ok(Entry(FixedZoneId(o), Fixed(o)))
    else if id in catalogue then Ok(Entry(id, catalogue[id]))
    else Err(UnknownZone)
  }

  /** The fixed zone identifier of an offset leads to that offset's zone. */
  lemma FixedZoneIdCanonical(o: Offset, catalogue: map<string, ZoneRules>)
    ensures Canonical(FixedZoneId(o), catalogue) == Ok(Entry(FixedZoneId(o), Fixed(o)))
  {
    if o != 0 {
      var id := FixedZoneId(o);
      assert id[3..] == FormatOffset(o);
      ParseFormat(o);
    }
  }

  /** Canonical keys are fixed points: resolving a key leads to itself. */
  lemma CanonicalIdempotent(id: string, catalogue: map<string, ZoneRules>)
    requires Canonical(id, catalogue).Ok?
    ensures var e := Canonical(id, catalogue).value;
      Canonical(e.key, catalogue) == Ok(e)
  {
    if id != "UTC" && |id| >= 3 && id[..3] == "UTC" {
      FixedZoneIdCanonical(ParseOffset(id[3..]).value, catalogue);
    }
  }

  /** Different offsets give different fixed zone identifiers. */
  lemma FixedZoneIdInjective(o1: Offset, o2: Offset)
    requires FixedZoneId(o1) == FixedZoneId(o2)
    ensures o1 == o2
  {
    FixedZoneIdCanonical(o1, map[]);
    FixedZoneIdCanonical(o2, map[]);
  }

  /** "UTC" followed by any text that parses to an offset leads to that
      offset's fixed zone, under its canonical identifier, whatever the
      catalogue holds. */
  lemma OffsetSuffixLeadsToZone(suffix: string, o: Offset, catalogue: map<string, ZoneRules>)
    requires ParseOffset(suffix) == Ok(o)
    ensures Canonical("UTC" + suffix, catalogue) == Ok(Entry(FixedZoneId(o), Fixed(o)))
  {
    var id := "UTC" + suffix;
    assert id[..3] == "UTC" && id[3..] == suffix;
  }

  /** Every spelling of zero after "UTC" leads to the UTC zone. */
  lemma ZeroSpellingsLeadToUtc(suffix: string, catalogue: map<string, ZoneRules>)
    requires ParseOffset(suffix) == Ok(0)
    ensures Canonical("UTC" + suffix, catalogue) == Ok(Entry("UTC", Fixed(0)))
  {
    OffsetSuffixLeadsToZone(suffix, 0, catalogue);
  }

  /** "UTC" followed by a non-empty text that is not an offset is a format
      error, whatever the catalogue holds. */
  lemma UnparsableSuffixRejected(suffix: string, catalogue: map<string, ZoneRules>)
    requires suffix != [] && ParseOffset(suffix).Err?
    ensures Canonical("UTC" + suffix, catalogue) == Err(FormatError)
  {
    var id := "UTC" + suffix;
    assert id[..3] == "UTC" && id[3..] == suffix;
  }

  /** The registry's invariant over its cache: the UTC zone is present
      under "UTC", and every cached zone is stored under its own canonical
      identifier, the one its identifier leads to, with the rules that
      identifier names. */
  predicate CacheValid(cache: map<string, Zone>, catalogue: map<string, ZoneRules>, utc: Zone) {
    && (forall name :: name in catalogue ==> WellFormed(catalogue[name]))
    && "UTC" in cache && cache["UTC"] == utc
    && forall k :: k in cache ==>
         && cache[k].id == k
         && Canonical(k, catalogue) == Ok(Entry(k, cache[k].rules))
         && WellFormed(cache[k].rules)
  }

  /** Inserting a zone under the canonical key of some identifier, with the
      rules it names, keeps the invariant. */
  lemma InsertKeepsValid(cache: map<string, Zone>, catalogue: map<string, ZoneRules>, utc: Zone, id: string, zone: Zone)
    requires CacheValid(cache, catalogue, utc) && Canonical(id, catalogue).Ok?
    requires zone.id == Canonical(id, catalogue).value.key && zone.rules == Canonical(id, catalogue).value.rules
    requires zone.id !in cache
    ensures CacheValid(cache[zone.id := zone], catalogue, utc)
  {
    CanonicalIdempotent(id, catalogue);
  }

  /** The process-wide registry: a cache from canonical identifier to zone,
      filled on a miss and never shrunk. */
  class ZoneRegistry {
    /** The region zones the rule provider knows. */
    const catalogue: map<string, ZoneRules>
    /** The UTC zone, present from the start. */
    const utc: Zone
    var cache: map<string, Zone>

    ghost predicate Valid()
      reads this
    {
      CacheValid(cache, catalogue, utc)
    }

    constructor (catalogue: map<string, ZoneRules>)
      requires forall name :: name in catalogue ==> WellFormed(catalogue[name])
      ensures Valid()
      ensures this.catalogue == catalogue
      ensures cache == map["UTC" := utc] && utc.id == "UTC" && utc.rules == Fixed(0)
    {
      this.catalogue := catalogue;
      var z := new Zone("UTC", Fixed(0));
      utc := z;
      cache := map["UTC" := z];
    }

    /** TimeZone.timeZone(String): the cached zone for the identifier's
        canonical key, or a new zone inserted under that key. */
    method Resolve(id: Option<string>) returns (r: Result<Zone>)
      requires Valid()
      modifies this
      ensures Valid()
      ensures forall k :: k in old(cache) ==> k in cache && cache[k] == old(cache)[k]
      ensures id.None? ==> r == Err(NullArgument) && cache == old(cache)
      ensures id.Some? && Canonical(id.value, catalogue).Err? ==>
                r == Err(Canonical(id.value, catalogue).error) && cache == old(cache)
      ensures id.Some? && Canonical(id.value, catalogue).Ok? ==>
                var e := Canonical(id.value, catalogue).value;
                && r.Ok? && r.value.id == e.key && r.value.rules == e.rules
                && (e.key in old(cache) ==> r.value == old(cache)[e.key] && cache == old(cache))
                && (e.key !in old(cache) ==> fresh(r.value) && cache == old(cache)[e.key := r.value])
    {
      if id.None? {
        return Err(NullArgument);
      }
      var name := id.value;
      if name in cache {
        // the identifier is already a canonical key
        assert Canonical(name, catalogue) == Ok(Entry(name, cache[name].rules));
        return Ok(cache[name]);
      }
      var found := Canonical(name, catalogue);
      if found.Err? {
        return Err(found.error);
      }
      var entry := found.value;
      CanonicalIdempotent(name, catalogue);
      if entry.key in cache {
        return Ok(cache[entry.key]);
      }
      var zone := new Zone(entry.key, entry.rules);
      InsertKeepsValid(cache, catalogue, utc, name, zone);
      cache := cache[entry.key := zone];
      return Ok(zone);
    }

    /** TimeZone.timeZone(ZoneOffset): the fixed zone of an offset. */
    method ResolveOffset(o: Offset) returns (z: Zone)
      requires Valid()
      modifies this
      ensures Valid()
      ensures z.id == FixedZoneId(o) && z.rules == Fixed(o)
      ensures FixedZoneId(o) in old(cache) ==> z == old(cache)[FixedZoneId(o)] && cache == old(cache)
      ensures FixedZoneId(o) !in old(cache) ==> fresh(z) && cache == old(cache)[FixedZoneId(o) := z]
      ensures o == 0 ==> z == utc
    {
      FixedZoneIdCanonical(o, catalogue);
      var r := Resolve(Some(FixedZoneId(o)));
      z := r.value;
    }

    /** Reloading a persisted zone goes back through the registry by its
        identifier, and so yields the live instance. */
    method Reload(z: Zone) returns (r: Result<Zone>)
      requires Valid() && z in cache.Values
      modifies this
      ensures Valid() && cache == old(cache)
      ensures r == Ok(z)
    {
      var k :| k in cache && cache[k] == z;
      assert Canonical(z.id, catalogue) == Ok(Entry(z.id, z.rules));
      r := Resolve(Some(z.id));
    }

    /** Resolving an identifier twice yields the same instance, or the same
        error twice. */
    method ResolveTwice(id: Option<string>) returns (first: Result<Zone>, second: Result<Zone>)
      requires Valid()
      modifies this
      ensures Valid()
      ensures first == second
    {
      first := Resolve(id);
      second := Resolve(id);
    }

    /** "UTC" followed by any spelling of zero resolves to the UTC zone. */
    method ResolveZeroSpelling(suffix: string) returns (r: Result<Zone>)
      requires Valid() && ParseOffset(suffix) == Ok(0)
      modifies this
      ensures Valid() && cache == old(cache)
      ensures r == Ok(utc)
    {
      ZeroSpellingsLeadToUtc(suffix, catalogue);
      r := Resolve(Some("UTC" + suffix));
    }

    /** Two cached zones are the same object exactly when their keys are
        equal, and then their identifiers are equal too. */
    lemma CachedZonesDistinct(k1: string, k2: string)
      requires Valid() && k1 in cache && k2 in cache
      ensures cache[k1] == cache[k2] <==> k1 == k2
      ensures cache[k1].id == cache[k2].id <==> k1 == k2
    {
    }
  }
}
