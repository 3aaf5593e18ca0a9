// The JSON printer as the source runs it: everything is appended to one output string, by loops over the items
// of a list and the fields of an object, with a comma in front of all but the first. What is appended is the
// printed tree of the specification.
module JsonWriter {
  import opened JsonText
  import opened JsonTree

  method DumpStringOnto(s: string, out: string) returns (ret: string)
    ensures ret == out + DumpString(s)
  {
    ret := out + [QUOTE];
    ret := EscapeOnto(s, ret);
    ret := ret + [QUOTE];
  }

  method DumpInternal(v: Json, out: string) returns (ret: string)
    ensures ret == out + Dump(v)
    decreases v, 3
  {
    match v
    case Null => ret := out + "null";
    case False => ret := out + "false";
    case True => ret := out + "true";
    case Number(text) => ret := out + text;
    case Str(s) => ret := DumpStringOnto(s, out);
    case List(_) => ret := DumpList(v, out);
    case Object(_) => ret := DumpObject(v, out);
  }

  method DumpList(v: Json, out: string) returns (ret: string)
    requires v.List?
    ensures ret == out + Dump(v)
    decreases v, 1
  {
    ret := out + "[";
    var first := true;
    for k := 0 to |v.items|
      invariant first <==> k == 0
      invariant ret + DumpItems(v, k) == out + Dump(v)
    {
      ret := DumpItem(v, k, first, ret);
      first := false;
    }
    ret := ret + "]";
  }

  method DumpItem(v: Json, k: nat, first: bool, out: string) returns (ret: string)
    requires v.List? && k < |v.items| && (first <==> k == 0)
    ensures ret + DumpItems(v, k + 1) == out + DumpItems(v, k)
    decreases v, 0
  {
    ret := if first then out else out + ",";
    ghost var before := ret;
    ret := DumpInternal(v.items[k], ret);
    assert ret + DumpItems(v, k + 1) == before + (Dump(v.items[k]) + DumpItems(v, k + 1));
  }

  method DumpObject(v: Json, out: string) returns (ret: string)
    requires v.Object?
    ensures ret == out + Dump(v)
    decreases v, 2
  {
    ret := out + "{";
    var first := true;
    for k := 0 to |v.fields|
      invariant first <==> k == 0
      invariant ret + DumpFields(v, k) == out + Dump(v)
    {
      ret := DumpMember(v, k, first, ret);
      first := false;
    }
    ret := ret + "}";
  }

  method DumpMember(v: Json, k: nat, first: bool, out: string) returns (ret: string)
    requires v.Object? && k < |v.fields| && (first <==> k == 0)
    ensures ret + DumpFields(v, k + 1) == out + DumpFields(v, k)
    decreases v, 1
  {
    ret := if first then out else out + ",";
    ret := DumpKeyAndValue(v, k, ret);
    MemberBehind(v, k, out);
  }

  lemma MemberBehind(v: Json, k: nat, out: string)
    requires v.Object? && k < |v.fields|
    ensures (if k == 0 then out else out + ",") + DumpField(v, k) + DumpFields(v, k + 1) == out + DumpFields(v, k)
  {
    var field, rest := DumpField(v, k), DumpFields(v, k + 1);
    assert out + field + rest == out + (field + rest);
    assert out + "," + field + rest == out + ("," + (field + rest));
  }

  method DumpKeyAndValue(v: Json, k: nat, out: string) returns (ret: string)
    requires v.Object? && k < |v.fields|
    ensures ret == out + DumpField(v, k)
    decreases v, 0
  {
    var key := DumpStringOnto(v.fields[k].key, out);
    ret := DumpInternal(v.fields[k].value, key + ":");
    KeyAndValue(out, DumpString(v.fields[k].key), Dump(v.fields[k].value));
  }

  lemma KeyAndValue(out: string, key: string, value: string)
    ensures out + key + ":" + value == out + (key + (":" + value))
  {
  }
}
