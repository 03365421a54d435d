/**
 * The recognizer registry of the analyzer
 * (presidio-analyzer/analyzer/recognizer_registry/recognizer_registry.py):
 * a list of recognizers with add-by-unique-name, remove-by-name and a
 * query by entities and language.
 */
module Registry {
  import opened Wrappers

  /**
   * What the registry needs of a recognizer: its name, the entity types it
   * supports and its language. Patterns, context and scoring are not part
   * of this model.
   */
  datatype Recognizer = Recognizer(name: string, supportedEntities: seq<string>, supportedLanguage: string)

  /** The ValueErrors the registry raises, one per message. */
  datatype RegistryError =
    | AlreadyDefined(name: string)  // "Recognizer of name {} is already defined"
    | NotFound                      // "Requested recognizer was not found"
    | NoLanguage                    // "No language provided"
    | NoEntities                    // "No entities provided"
    | NoMatchingRecognizers         // "No matching recognizers were found to serve the request."

  predicate HasName(rs: seq<Recognizer>, name: string)
  {
    exists i :: 0 <= i < |rs| && rs[i].name == name
  }

  predicate UniqueNames(rs: seq<Recognizer>)
  {
    forall i, j :: 0 <= i < j < |rs| ==> rs[i].name != rs[j].name
  }

  /** The recognizers whose name differs from `name`, in their order. */
  function Others(rs: seq<Recognizer>, name: string): (r: seq<Recognizer>)
    ensures |r| <= |rs|
  {
    if |rs| == 0 then []
    else if rs[0].name == name then Others(rs[1..], name)
    else [rs[0]] + Others(rs[1..], name)
  }

  lemma {:induction false} OthersLacksName(rs: seq<Recognizer>, name: string)
    ensures !HasName(Others(rs, name), name)
    ensures forall x :: x in Others(rs, name) <==> x in rs && x.name != name
  {
    if |rs| > 0 {
      OthersLacksName(rs[1..], name);
      MemberSplit(rs);
      if rs[0].name != name {
        HasNameCons(rs[0], Others(rs[1..], name), name);
      }
    }
  }

  lemma MemberSplit<T>(s: seq<T>)
    requires |s| > 0
    ensures forall x :: x in s <==> x == s[0] || x in s[1..]
  {
    assert s == [s[0]] + s[1..];
  }

  lemma HasNameCons(r: Recognizer, rs: seq<Recognizer>, name: string)
    ensures HasName([r] + rs, name) <==> r.name == name || HasName(rs, name)
  {
    var all := [r] + rs;
    if HasName(rs, name) {
      var i :| 0 <= i < |rs| && rs[i].name == name;
      assert all[i + 1] == rs[i];
    }
    if HasName(all, name) && r.name != name {
      var i :| 0 <= i < |all| && all[i].name == name;
      assert rs[i - 1] == all[i];
    }
    assert all[0] == r;
  }

  /** Appending a recognizer of a new name keeps the names unique. */
  lemma AppendFreshName(rs: seq<Recognizer>, recognizer: Recognizer)
    requires forall i :: 0 <= i < |rs| ==> rs[i].name != recognizer.name
    ensures !HasName(rs, recognizer.name)
    ensures UniqueNames(rs) ==> UniqueNames(rs + [recognizer])
  {
  }

  // remove_recognizer

  /**
   * The list `remove_recognizer` leaves behind. It pops each recognizer
   * named `name` while enumerating the same list, so the element that moves
   * into the popped slot is never examined: it stays, whatever its name.
   */
  function RemoveByEnumeration(rs: seq<Recognizer>, name: string): (r: seq<Recognizer>)
    ensures |r| <= |rs|
  {
    if |rs| == 0 then []
    else if rs[0].name != name then [rs[0]] + RemoveByEnumeration(rs[1..], name)
    else if |rs| == 1 then []
    else [rs[1]] + RemoveByEnumeration(rs[2..], name)
  }

  /**
   * The loop of `remove_recognizer` from enumeration index `i` on the live
   * list: a match is popped and the index still advances, so the element
   * that slides into slot `i` is passed over; the enumeration ends once the
   * index reaches the current length.
   */
  function Enumerate(list: seq<Recognizer>, i: nat, name: string): seq<Recognizer>
    decreases |list| - i
  {
    if i >= |list| then list
    else if list[i].name == name then Enumerate(list[..i] + list[i + 1..], i + 1, name)
    else Enumerate(list, i + 1, name)
  }

  /** The loop from index `i` keeps the examined prefix and removes from the rest as `RemoveByEnumeration` does. */
  lemma {:induction false} EnumerateFrom(list: seq<Recognizer>, i: nat, name: string)
    requires i <= |list|
    ensures Enumerate(list, i, name) == list[..i] + RemoveByEnumeration(list[i..], name)
    decreases |list| - i
  {
    if i == |list| {
      assert list[..i] == list && list[i..] == [];
    } else if list[i].name != name {
      EnumerateFrom(list, i + 1, name);
      KeepSplit(list, i, name);
    } else {
      var popped := list[..i] + list[i + 1..];
      if i + 1 < |list| {
        EnumerateFrom(popped, i + 1, name);
        PopSplit(list, i, name);
      } else {
        assert popped == list[..i];
        assert list[i..] == [list[i]];
      }
    }
  }

  lemma KeepSplit(list: seq<Recognizer>, i: nat, name: string)
    requires i < |list| && list[i].name != name
    ensures list[..i + 1] + RemoveByEnumeration(list[i + 1..], name) == list[..i] + RemoveByEnumeration(list[i..], name)
  {
    assert list[i..][0] == list[i] && list[i..][1..] == list[i + 1..];
    assert list[..i + 1] == list[..i] + [list[i]];
  }

  lemma PopSplit(list: seq<Recognizer>, i: nat, name: string)
    requires i + 1 < |list| && list[i].name == name
    ensures var popped := list[..i] + list[i + 1..];
      popped[..i + 1] + RemoveByEnumeration(popped[i + 1..], name) == list[..i] + RemoveByEnumeration(list[i..], name)
  {
    var rest := list[i..];
    PopSlices(list, i);
    var tail := RemoveByEnumeration(list[i + 2..], name);
    assert RemoveByEnumeration(rest, name) == [list[i + 1]] + tail;
    assert (list[..i] + [list[i + 1]]) + tail == list[..i] + ([list[i + 1]] + tail);
  }

  /** The slices of a list with index `i` popped, next to the list's own. */
  lemma PopSlices<T>(list: seq<T>, i: nat)
    requires i + 1 < |list|
    ensures var popped, rest := list[..i] + list[i + 1..], list[i..];
      && |rest| >= 2 && rest[0] == list[i] && rest[1] == list[i + 1] && rest[2..] == list[i + 2..]
      && popped[..i + 1] == list[..i] + [list[i + 1]] && popped[i + 1..] == list[i + 2..]
  {
  }

  /** The whole loop is `RemoveByEnumeration`. */
  lemma EnumerateRemoves(rs: seq<Recognizer>, name: string)
    ensures Enumerate(rs, 0, name) == RemoveByEnumeration(rs, name)
  {
    EnumerateFrom(rs, 0, name);
    assert rs[..0] == [] && rs[0..] == rs;
  }

  /** The removal keeps every recognizer of another name, in order. */
  lemma {:induction false} RemoveKeepsOthers(rs: seq<Recognizer>, name: string)
    ensures Others(RemoveByEnumeration(rs, name), name) == Others(rs, name)
  {
    if |rs| >= 2 && rs[0].name == name {
      RemoveKeepsOthers(rs[2..], name);
      assert rs[1..][1..] == rs[2..];
    } else if |rs| > 0 {
      RemoveKeepsOthers(rs[1..], name);
    }
  }

  /**
   * With unique names the removal deletes exactly the recognizer at `k`,
   * the one named `name`: one fewer, the rest in order.
   */
  lemma {:induction false} RemoveUnique(rs: seq<Recognizer>, name: string, k: nat)
    requires UniqueNames(rs) && k < |rs| && rs[k].name == name
    ensures RemoveByEnumeration(rs, name) == rs[..k] + rs[k + 1..]
    ensures |RemoveByEnumeration(rs, name)| == |rs| - 1
    ensures !HasName(RemoveByEnumeration(rs, name), name)
  {
    UniqueTail(rs);
    if k == 0 {
      NoMatchUnchanged(rs[1..], name);
      if |rs| >= 2 {
        assert rs[1..][0] == rs[1] && rs[1..][1..] == rs[2..];
      }
      assert rs[..0] + rs[1..] == rs[1..];
    } else {
      assert rs[0].name != name by {
        assert rs[0].name != rs[k].name;
      }
      assert rs[1..][k - 1] == rs[k];
      RemoveUnique(rs[1..], name, k - 1);
      ConsSlices(rs, k);
      HasNameCons(rs[0], RemoveByEnumeration(rs[1..], name), name);
    }
  }

  lemma UniqueTail(rs: seq<Recognizer>)
    requires UniqueNames(rs) && |rs| > 0
    ensures UniqueNames(rs[1..]) && !HasName(rs[1..], rs[0].name)
  {
    var tail := rs[1..];
    forall i, j | 0 <= i < j < |tail| ensures tail[i].name != tail[j].name {
      assert tail[i] == rs[i + 1] && tail[j] == rs[j + 1];
    }
    forall i | 0 <= i < |tail| ensures tail[i].name != rs[0].name {
      assert tail[i] == rs[i + 1];
    }
  }

  lemma ConsSlices<T>(rs: seq<T>, k: nat)
    requires 0 < k < |rs|
    ensures rs[..k] + rs[k + 1..] == [rs[0]] + (rs[1..][..k - 1] + rs[1..][k..])
  {
    assert rs[..k] == [rs[0]] + rs[1..][..k - 1];
    assert rs[k + 1..] == rs[1..][k..];
  }

  /** Without a recognizer named `name` the list is unchanged. */
  lemma {:induction false} NoMatchUnchanged(rs: seq<Recognizer>, name: string)
    requires !HasName(rs, name)
    ensures RemoveByEnumeration(rs, name) == rs
  {
    if |rs| > 0 {
      assert rs[0].name != name;
      assert !HasName(rs[1..], name) by {
        forall i | 0 <= i < |rs[1..]| ensures rs[1..][i].name != name {
          assert rs[1..][i] == rs[i + 1];
        }
      }
      NoMatchUnchanged(rs[1..], name);
      assert rs == [rs[0]] + rs[1..];
    }
  }

  /**
   * Removing the recognizer just added to a registry of unique names gives
   * back the registry as it was: the count rises by one and falls by one.
   */
  lemma AddThenRemove(rs: seq<Recognizer>, recognizer: Recognizer)
    requires UniqueNames(rs) && !HasName(rs, recognizer.name)
    ensures UniqueNames(rs + [recognizer])
    ensures RemoveByEnumeration(rs + [recognizer], recognizer.name) == rs
  {
    var added := rs + [recognizer];
    assert added[|rs|] == recognizer;
    RemoveUnique(added, recognizer.name, |rs|);
    assert added[..|rs|] == rs && added[|rs| + 1..] == [];
  }

  /**
   * The enumeration is not a removal of every match: of two adjacent
   * recognizers of the same name the second one stays. `add` keeps names
   * unique, but the constructor accepts any list.
   */
  lemma AdjacentDuplicateSurvives(a: Recognizer, b: Recognizer)
    requires a.name == b.name
    ensures RemoveByEnumeration([a, b], a.name) == [b]
    ensures HasName(RemoveByEnumeration([a, b], a.name), a.name)
  {
    assert [a, b][1..][1..] == [];
    assert [b][0].name == a.name;
  }

  // get_recognizers

  /** `[rec for rec in recs if entity in rec.supported_entities and language == rec.supported_language]` */
  function Supporting(recs: seq<Recognizer>, entity: string, language: string): (r: seq<Recognizer>)
    ensures |r| <= |recs|
  {
    if |recs| == 0 then []
    else
      var rest := Supporting(recs[1..], entity, language);
      if entity in recs[0].supportedEntities && language == recs[0].supportedLanguage then [recs[0]] + rest
      else rest
  }

  /** The concatenation, entity by entity, of the recognizers supporting it in `language`. */
  function Matching(recs: seq<Recognizer>, entities: seq<string>, language: string): seq<Recognizer>
  {
    if |entities| == 0 then []
    else
      var last := entities[|entities| - 1];
      Matching(recs, entities[..|entities| - 1], language) + Supporting(recs, last, language)
  }

  lemma {:induction false} SupportingMembers(recs: seq<Recognizer>, entity: string, language: string)
    ensures forall x :: x in Supporting(recs, entity, language) <==>
      x in recs && entity in x.supportedEntities && x.supportedLanguage == language
  {
    if |recs| > 0 {
      SupportingMembers(recs[1..], entity, language);
      assert recs == [recs[0]] + recs[1..];
    }
  }

  /**
   * What the tests expect of a query: a recognizer is returned exactly when
   * it is registered, has the requested language and supports one of the
   * requested entities.
   */
  lemma {:induction false} MatchingMembers(recs: seq<Recognizer>, entities: seq<string>, language: string)
    ensures forall x :: x in Matching(recs, entities, language) <==>
      x in recs && x.supportedLanguage == language && exists e :: e in entities && e in x.supportedEntities
  {
    if |entities| > 0 {
      var init, last := entities[..|entities| - 1], entities[|entities| - 1];
      MatchingMembers(recs, init, language);
      SupportingMembers(recs, last, language);
      assert entities == init + [last];
      forall x | x in recs && x.supportedLanguage == language && (exists e :: e in entities && e in x.supportedEntities)
        ensures x in Matching(recs, entities, language)
      {
        var e :| e in entities && e in x.supportedEntities;
        if e != last {
          assert e in init;
        }
      }
    }
  }

  class RecognizerRegistry {
    var recognizers: seq<Recognizer>

    /** `RecognizerRegistry(recognizers=None)`: a missing list becomes a fresh empty one. */
    constructor (recognizers: Option<seq<Recognizer>>)
      ensures this.recognizers == if recognizers.None? then [] else recognizers.value
    {
      this.recognizers := if recognizers.None? then [] else recognizers.value;
    }

    /**
     * `add_pattern_recognizer_from_dict` with the recognizer already built
     * from its dictionary: a recognizer of an existing name is refused and
     * the list kept; otherwise the recognizer is appended.
     */
    method AddPatternRecognizer(recognizer: Recognizer) returns (r: Result<(), RegistryError>)
      modifies this
      ensures HasName(old(recognizers), recognizer.name) ==>
        r == Err(AlreadyDefined(recognizer.name)) && recognizers == old(recognizers)
      ensures !HasName(old(recognizers), recognizer.name) ==>
        r == Ok(()) && recognizers == old(recognizers) + [recognizer]
      ensures UniqueNames(old(recognizers)) ==> UniqueNames(recognizers)
    {
      for k := 0 to |recognizers|
        invariant forall i :: 0 <= i < k ==> recognizers[i].name != recognizer.name
      {
        if recognizers[k].name == recognizer.name {
          return Err(AlreadyDefined(recognizers[k].name));
        }
      }
      AppendFreshName(recognizers, recognizer);
      recognizers := recognizers + [recognizer];
      return Ok(());
    }

    /**
     * `remove_recognizer(name)`: pops every examined recognizer named `name`
     * while enumerating the list, then raises when none was found.
     */
    method RemoveRecognizer(name: string) returns (r: Result<(), RegistryError>)
      modifies this
      ensures recognizers == RemoveByEnumeration(old(recognizers), name)
      ensures r == if HasName(old(recognizers), name) then Ok(()) else Err(NotFound)
    {
      var found := false;
      var i := 0;
      ghost var orig := recognizers;
      while i < |recognizers|
        invariant i <= |recognizers| + 1
        invariant Enumerate(recognizers, i, name) == Enumerate(orig, 0, name)
        invariant found ==> HasName(orig, name)
        invariant !found ==> recognizers == orig && i <= |orig| && forall k :: 0 <= k < i ==> orig[k].name != name
        decreases |recognizers| + 1 - i
      {
        if recognizers[i].name == name {
          recognizers := recognizers[..i] + recognizers[i + 1..];
          found := true;
        }
        i := i + 1;
      }
      EnumerateRemoves(orig, name);
      if !found {
        return Err(NotFound);
      }
      return Ok(());
    }

    /**
     * `get_recognizers(entities, language)` as written: without arguments
     * the whole list; with one argument missing a ValueError; with both
     * the branches after the filter are inverted, so `to_return` only ever
     * grows by empty subsets and the answer is always the empty list.
     */
    method GetRecognizers(entities: Option<seq<string>>, language: Option<string>)
      returns (r: Result<seq<Recognizer>, RegistryError>)
      ensures entities.None? && language.None? ==> r == Ok(recognizers)
      ensures entities.Some? && language.None? ==> r == Err(NoLanguage)
      ensures entities.None? && language.Some? ==> r == Err(NoEntities)
      ensures entities.Some? && language.Some? ==> r == Ok([])
    {
      if language.None? && entities.None? {
        return Ok(recognizers);
      }
      if language.None? {
        return Err(NoLanguage);
      }
      if entities.None? {
        return Err(NoEntities);
      }
      var toReturn: seq<Recognizer> := [];
      for k := 0 to |entities.value|
        invariant toReturn == []
      {
        var subset := Supporting(recognizers, entities.value[k], language.value);
        if |subset| > 0 {
          // only logs a warning
        } else {
          toReturn := toReturn + subset;
        }
      }
      if |toReturn| > 0 {
        return Err(NoMatchingRecognizers);
      }
      return Ok(toReturn);
    }

    /**
     * `get_recognizers` with the two inverted branches put right, as the
     * tests expect: the recognizers supporting each entity are collected
     * and an empty collection raises.
     */
    method GetRecognizersAsTested(entities: Option<seq<string>>, language: Option<string>)
      returns (r: Result<seq<Recognizer>, RegistryError>)
      ensures entities.None? && language.None? ==> r == Ok(recognizers)
      ensures entities.Some? && language.None? ==> r == Err(NoLanguage)
      ensures entities.None? && language.Some? ==> r == Err(NoEntities)
      ensures entities.Some? && language.Some? ==>
        var m := Matching(recognizers, entities.value, language.value);
        r == if m == [] then Err(NoMatchingRecognizers) else Ok(m)
    {
      if language.None? && entities.None? {
        return Ok(recognizers);
      }
      if language.None? {
        return Err(NoLanguage);
      }
      if entities.None? {
        return Err(NoEntities);
      }
      var es := entities.value;
      var toReturn: seq<Recognizer> := [];
      for k := 0 to |es|
        invariant toReturn == Matching(recognizers, es[..k], language.value)
      {
        var subset := Supporting(recognizers, es[k], language.value);
        assert es[..k + 1][..k] == es[..k];
        if |subset| == 0 {
          // only logs a warning
        } else {
          toReturn := toReturn + subset;
        }
      }
      assert es[..|es|] == es;
      if |toReturn| == 0 {
        return Err(NoMatchingRecognizers);
      }
      return Ok(toReturn);
    }
  }

  /** The mock registry of the registry tests: five recognizers over three languages. */
  function MockRecognizers(): seq<Recognizer>
  {
    [ Recognizer("1", ["PERSON"], "en"),
      Recognizer("2", ["PERSON"], "de"),
      Recognizer("3", ["ADDRESS"], "de"),
      Recognizer("4", ["ADDRESS"], "he"),
      Recognizer("5", ["PERSON", "ADDRESS"], "he") ]
  }

  /**
   * The query of the test for one language and one entity (German,
   * PERSON): the source answers with no recognizer where the test expects
   * exactly recognizer "2"; for an unknown language the source answers with
   * the empty list where the test expects ValueError.
   */
  method MockRegistryQueries() returns (asWritten: Result<seq<Recognizer>, RegistryError>,
                                        asTested: Result<seq<Recognizer>, RegistryError>,
                                        unknownAsWritten: Result<seq<Recognizer>, RegistryError>,
                                        unknownAsTested: Result<seq<Recognizer>, RegistryError>)
    ensures asWritten == Ok([])
    ensures asTested == Ok([Recognizer("2", ["PERSON"], "de")])
    ensures unknownAsWritten == Ok([])
    ensures unknownAsTested == Err(NoMatchingRecognizers)
  {
    var registry := new RecognizerRegistry(Some(MockRecognizers()));
    asWritten := registry.GetRecognizers(Some(["PERSON"]), Some("de"));
    asTested := registry.GetRecognizersAsTested(Some(["PERSON"]), Some("de"));
    assert Matching(MockRecognizers(), ["PERSON"], "de") == [Recognizer("2", ["PERSON"], "de")];
    unknownAsWritten := registry.GetRecognizers(Some(["PERSON"]), Some("brrrr"));
    unknownAsTested := registry.GetRecognizersAsTested(Some(["PERSON"]), Some("brrrr"));
    assert Matching(MockRecognizers(), ["PERSON"], "brrrr") == [];
  }
}
