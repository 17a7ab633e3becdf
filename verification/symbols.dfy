/** The symbol mapper: the reverse map from identifier to colour index, built
    once from the identifier table by walking its entries in key order, and the
    identifier lookups made through it on import. */
module Symbols {
  import opened Wrappers
  import opened Types
  import opened Constants

  /** No string occurs twice in `ids`. */
  predicate Distinct(ids: seq<string>) {
    forall i, j :: 0 <= i < |ids| && 0 <= j < |ids| && i != j ==> ids[i] != ids[j]
  }

  /** The map obtained by storing `id := index` for the first `n` entries of
      `ids`, one after another; a later entry overwrites an earlier one. */
  function BuildReverse(ids: seq<string>, n: nat): map<string, nat>
    requires n <= |ids|
  {
    if n == 0 then map[] else BuildReverse(ids, n - 1)[ids[n - 1] := n - 1]
  }

  /** When the identifiers are distinct, nothing gets overwritten: the map
      sends each of the first `n` identifiers back to its own index and holds
      no other key. */
  lemma {:induction false} BuildReverseInverts(ids: seq<string>, n: nat)
    requires n <= |ids| && Distinct(ids)
    ensures forall j :: 0 <= j < n ==> ids[j] in BuildReverse(ids, n) && BuildReverse(ids, n)[ids[j]] == j
    ensures forall id :: id in BuildReverse(ids, n) ==> BuildReverse(ids, n)[id] < n && ids[BuildReverse(ids, n)[id]] == id
  {
    if n > 0 {
      BuildReverseInverts(ids, n - 1);
    }
  }

  /** `ID_TO_COLOR_INDEX`. */
  const IdToColorIndex: map<string, nat> := BuildReverse(WoolIds, |WoolIds|)

  /** The reverse map is a true inverse of the identifier table: every colour
      index comes back from its identifier, and every key of the map is the
      identifier of the index it maps to. */
  lemma ReverseMapInvertsIds()
    ensures forall i :: 0 <= i < |WoolIds| ==> WoolIds[i] in IdToColorIndex && IdToColorIndex[WoolIds[i]] == i
    ensures forall id :: id in IdToColorIndex ==> IdToColorIndex[id] < |WoolIds| && WoolIds[IdToColorIndex[id]] == id
  {
    forall i, j | 0 <= i < |WoolIds| && 0 <= j < |WoolIds| && i != j
      ensures WoolIds[i] != WoolIds[j]
    {
      IdsAreDistinct(i, j);
    }
    BuildReverseInverts(WoolIds, |WoolIds|);
  }

  /** The colour index named by an import token, or `None` when the token is
      not one of the sixteen identifiers (an own key of the reverse map). */
  function FromId(id: string): (r: Option<nibble>)
    ensures r.Some? <==> id in WoolIds
    ensures r.Some? ==> WoolIds[r.value] == id
  {
    ReverseMapInvertsIds();
    if id in IdToColorIndex then Some(IdToColorIndex[id]) else None
  }

  /** Every colour index comes back from its identifier. */
  lemma FromIdInvertsIds(b: nibble)
    ensures FromId(WoolIds[b]) == Some(b)
  {
    ReverseMapInvertsIds();
  }

  // The lookup as the import loop writes it. `ID_TO_COLOR_INDEX` is a plain
  // object literal, so reading a property that is not an own key still finds
  // the members every object inherits from `Object.prototype`; only a name
  // found nowhere reads as `undefined`.

  /** The property names every plain object inherits from `Object.prototype`. */
  const InheritedMembers: set<string> := {
    "constructor", "hasOwnProperty", "isPrototypeOf", "propertyIsEnumerable",
    "toLocaleString", "toString", "valueOf", "__proto__",
    "__defineGetter__", "__defineSetter__", "__lookupGetter__", "__lookupSetter__"}

  /** What reading `ID_TO_COLOR_INDEX[id]` yields. */
  datatype PropertyRead = OwnValue(index: nat) | InheritedValue | Undefined

  function ReadReverseMap(id: string): PropertyRead {
    if id in IdToColorIndex then OwnValue(IdToColorIndex[id])
    else if id in InheritedMembers then InheritedValue
    else Undefined
  }

  /** The unknown-identifier test of the import loop, as written: it rejects a
      token only when the property read is `undefined`, so it accepts exactly
      the canonical identifiers and the inherited member names. */
  predicate GuardAcceptsAsWritten(id: string)
    ensures GuardAcceptsAsWritten(id) <==> FromId(id).Some? || id in InheritedMembers
  {
    ReadReverseMap(id) != Undefined
  }

  /** The token `constructor` is no identifier, yet the guard as written lets
      it through (the loop then pushes a function object as a block). */
  lemma GuardAcceptsNonIdentifier()
    ensures GuardAcceptsAsWritten("constructor")
    ensures "constructor" !in WoolIds && FromId("constructor") == None
  {
    assert "constructor" in InheritedMembers;
  }
}
