/** `create_custom_field` (backend/server.py): a custom field is stored under a normalised
    name, lower-case with spaces turned into underscores. The handler looks for an existing
    field under the name as given, not under the name it stores, so two requests that differ
    only in case or spacing store the same name twice. The model keeps that check as written
    next to the corrected one, which the store uses. */
module CustomFields {
  import opened Values

  datatype CustomField = CustomField(id: nat, name: string, fieldLabel: string, fieldType: string)

  /** `s.replace(" ", "_")`. */
  function Underscored(s: string): (r: string)
    ensures |r| == |s|
    ensures ' ' !in r
    ensures r == s <==> ' ' !in s
    ensures forall k :: 0 <= k < |s| && s[k] != ' ' ==> r[k] == s[k]
    ensures forall k :: 0 <= k < |s| && s[k] == ' ' ==> r[k] == '_'
  {
    seq(|s|, k requires 0 <= k < |s| => if s[k] == ' ' then '_' else s[k])
  }

  /** `field_name.lower().replace(" ", "_")` (ASCII letters only). */
  function Normalize(name: string): string
  {
    Underscored(Lower(name))
  }

  /** A name is its own normalisation exactly when it has no space and no upper-case
      letter; so normalising twice changes nothing. */
  lemma NormalizeFixedPoints(name: string)
    ensures Normalize(name) == name <==> forall k :: 0 <= k < |name| ==> name[k] != ' ' && !('A' <= name[k] <= 'Z')
    ensures Normalize(Normalize(name)) == Normalize(name)
  {
    var n := Normalize(name);
    assert forall k :: 0 <= k < |n| ==> n[k] != ' ' && !('A' <= n[k] <= 'Z');
    if forall k :: 0 <= k < |name| ==> name[k] != ' ' && !('A' <= name[k] <= 'Z') {
      assert forall k :: 0 <= k < |name| ==> n[k] == name[k];
    }
    assert forall k :: 0 <= k < |n| ==> Normalize(n)[k] == n[k];
  }

  /** `find_one({"field_name": name})`. */
  function IndexOfName(fields: seq<CustomField>, name: string): (r: Option<nat>)
    ensures r.Some? ==> r.value < |fields| && fields[r.value].name == name
    ensures r.None? <==> forall i :: 0 <= i < |fields| ==> fields[i].name != name
  {
    if fields == [] then None
    else if fields[0].name == name then Some(0)
    else
      var rest := IndexOfName(fields[1..], name);
      assert forall i :: 1 <= i < |fields| ==> fields[i] == fields[1..][i - 1];
      if rest.Some? then Some(rest.value + 1) else None
  }

  predicate DistinctNames(fields: seq<CustomField>)
  {
    forall i, j :: 0 <= i < j < |fields| ==> fields[i].name != fields[j].name
  }

  /** The handler as written: the duplicate check uses the name as given. */
  function CreateAsWritten(fields: seq<CustomField>, id: nat, name: string, fieldLabel: string, fieldType: string): Result<seq<CustomField>>
  {
    if IndexOfName(fields, name).Some? then Failure("Field already exists")
    else Ok(fields + [CustomField(id, Normalize(name), fieldLabel, fieldType)])
  }

  /** With "my_field" stored, a request for "My Field" passes the check and stores
      "my_field" a second time. */
  lemma AsWrittenStoresDuplicate()
    ensures var stored := [CustomField(0, "my_field", "My field", "text")];
      var r := CreateAsWritten(stored, 1, "My Field", "My field", "text");
      && r.Ok?
      && |r.value| == 2 && r.value[0].name == r.value[1].name == "my_field"
      && !DistinctNames(r.value)
  {
    var stored := [CustomField(0, "my_field", "My field", "text")];
    assert stored[0].name != "My Field" by {
      assert stored[0].name[0] != "My Field"[0];
    }
    assert Normalize("My Field") == "my_field";
  }

  /** The evident intent: the check uses the name that will be stored. */
  function Create(fields: seq<CustomField>, id: nat, name: string, fieldLabel: string, fieldType: string): (r: Result<seq<CustomField>>)
    ensures r.Failure? <==> exists i :: 0 <= i < |fields| && fields[i].name == Normalize(name)
    ensures r.Ok? ==> r.value == fields + [CustomField(id, Normalize(name), fieldLabel, fieldType)]
  {
    if IndexOfName(fields, Normalize(name)).Some? then Failure("Field already exists")
    else Ok(fields + [CustomField(id, Normalize(name), fieldLabel, fieldType)])
  }

  /** Stored names stay distinct under the corrected check, and every stored name is
      normalised. */
  lemma CreateKeepsNamesDistinct(fields: seq<CustomField>, id: nat, name: string, fieldLabel: string, fieldType: string)
    requires DistinctNames(fields)
    ensures Create(fields, id, name, fieldLabel, fieldType).Ok? ==> DistinctNames(Create(fields, id, name, fieldLabel, fieldType).value)
    ensures Create(fields, id, name, fieldLabel, fieldType).Ok? ==>
      var added := Create(fields, id, name, fieldLabel, fieldType).value[|fields|].name;
      Normalize(added) == added
  {
    NormalizeFixedPoints(name);
  }

  /** The `custom_fields` collection. */
  class FieldStore {
    var fields: seq<CustomField>
    /** Source of fresh ids, standing for `uuid.uuid4()`. */
    var nextId: nat

    constructor()
      ensures fields == [] && nextId == 0
    {
      fields := [];
      nextId := 0;
    }

    /** `create_custom_field`, with the duplicate check on the stored name. */
    method CreateCustomField(name: string, fieldLabel: string, fieldType: string) returns (r: Result<CustomField>)
      modifies this
      ensures DistinctNames(old(fields)) ==> DistinctNames(fields)
      ensures Create(old(fields), old(nextId), name, fieldLabel, fieldType).Failure? ==>
        r.Failure? && fields == old(fields) && nextId == old(nextId)
      ensures Create(old(fields), old(nextId), name, fieldLabel, fieldType).Ok? ==>
        && r == Ok(CustomField(old(nextId), Normalize(name), fieldLabel, fieldType))
        && fields == Create(old(fields), old(nextId), name, fieldLabel, fieldType).value
        && nextId == old(nextId) + 1
    {
      var stored := Normalize(name);
      if IndexOfName(fields, stored).Some? {
        return Failure("Field already exists");
      }
      if DistinctNames(fields) {
        CreateKeepsNamesDistinct(fields, nextId, name, fieldLabel, fieldType);
      }
      var field := CustomField(nextId, stored, fieldLabel, fieldType);
      fields := fields + [field];
      nextId := nextId + 1;
      r := Ok(field);
    }
  }
}
