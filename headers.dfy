/** HTTP header lists as the `webRequest` events deliver them: an ordered list
    of name/value pairs that may repeat a name. A header built by the
    extension with only a name has no value until one is assigned. */
module Headers {
  import opened Wrappers
  import opened JsText

  datatype Header = Header(name: string, value: Option<string>)

  /** `header.name.toLowerCase() === headerName`. Header names are
      case-insensitive (section 3.2 of RFC 7230), but the query is compared as
      given, so only a lower-case query matches case-insensitively. */
  predicate NameIs(h: Header, headerName: string) {
    Lower(h.name) == headerName
  }

  /** The first index at or after `from` whose header has the name. */
  function FindFrom(headers: seq<Header>, headerName: string, from: nat): (r: Option<nat>)
    requires from <= |headers|
    ensures r.Some? ==> (from <= r.value < |headers| && NameIs(headers[r.value], headerName)
      && forall j :: from <= j < r.value ==> !NameIs(headers[j], headerName))
    ensures r.None? ==> forall j :: from <= j < |headers| ==> !NameIs(headers[j], headerName)
    decreases |headers| - from
  {
    if from == |headers| then None
    else if NameIs(headers[from], headerName) then Some(from)
    else FindFrom(headers, headerName, from + 1)
  }

  /** The index of the header `getHeaderFromHeaders(headers, headerName)`
      returns: the lowest index whose lower-cased name is `headerName`. */
  function Lookup(headers: seq<Header>, headerName: string): (r: Option<nat>)
    ensures r.Some? ==> (r.value < |headers| && NameIs(headers[r.value], headerName)
      && forall j :: 0 <= j < r.value ==> !NameIs(headers[j], headerName))
    ensures r.None? <==> forall j :: 0 <= j < |headers| ==> !NameIs(headers[j], headerName)
  {
    FindFrom(headers, headerName, 0)
  }

  /** The value of the first header with the name: `None` when there is no
      such header, `Some(None)` when it has no value. */
  function ValueOf(headers: seq<Header>, headerName: string): Option<Option<string>> {
    match Lookup(headers, headerName)
    case None => None
    case Some(i) => Some(headers[i].value)
  }

  /** `getHeaderFromHeaders`: scans the list in order and stops at the first
      header whose lower-cased name is `headerName`. */
  method GetHeaderFromHeaders(headers: seq<Header>, headerName: string) returns (r: Option<nat>)
    ensures r == Lookup(headers, headerName)
  {
    for i := 0 to |headers|
      invariant forall j :: 0 <= j < i ==> !NameIs(headers[j], headerName)
    {
      if Lower(headers[i].name) == headerName {
        return Some(i);
      }
    }
    return None;
  }

  /** A query with an upper-case ASCII letter finds nothing, whatever the
      list holds: the lookup is case-insensitive only for lower-case queries. */
  lemma LookupUpperCaseQuery(headers: seq<Header>, headerName: string, k: nat)
    requires k < |headerName| && 'A' <= headerName[k] <= 'Z'
    ensures Lookup(headers, headerName) == None
  {
    forall j | 0 <= j < |headers| ensures !NameIs(headers[j], headerName) {
      NoUpperInLower(headers[j].name, headerName, k);
    }
  }

  /** Names that differ only in ASCII case are found alike. */
  lemma LookupIgnoresNameCase(headers: seq<Header>, i: nat, newName: string, headerName: string)
    requires i < |headers| && Lower(newName) == Lower(headers[i].name)
    ensures Lookup(headers[i := headers[i].(name := newName)], headerName) == Lookup(headers, headerName)
  {
    var h' := headers[i := headers[i].(name := newName)];
    assert forall j :: 0 <= j < |headers| ==> (NameIs(h'[j], headerName) <==> NameIs(headers[j], headerName));
  }

  /** Assigning a value to a header leaves every lookup as it was. */
  lemma LookupAfterSetValue(headers: seq<Header>, i: nat, v: Option<string>, headerName: string)
    requires i < |headers|
    ensures Lookup(headers[i := headers[i].(value := v)], headerName) == Lookup(headers, headerName)
  {
    var h' := headers[i := headers[i].(value := v)];
    assert forall j :: 0 <= j < |headers| ==> h'[j].name == headers[j].name;
  }

  /** Appending a header changes a lookup only when nothing matched before. */
  lemma LookupAfterPush(headers: seq<Header>, h: Header, headerName: string)
    ensures Lookup(headers + [h], headerName) ==
      if Lookup(headers, headerName).Some? then Lookup(headers, headerName)
      else if NameIs(h, headerName) then Some(|headers|)
      else None
  {
    var h' := headers + [h];
    assert forall j :: 0 <= j < |headers| ==> h'[j] == headers[j];
    assert h'[|headers|] == h;
  }

  /** A header list that listeners change in place (a JavaScript array of
      header objects, shared by reference with the event's details). */
  class HeaderList {
    var items: seq<Header>

    constructor (items: seq<Header>)
      ensures this.items == items
    {
      this.items := items;
    }

    /** `headers.push(header)`. */
    method Push(h: Header)
      modifies this
      ensures items == old(items) + [h]
    {
      items := items + [h];
    }

    /** `header.value = v` for the header at index `i`. */
    method SetValue(i: nat, v: string)
      requires i < |items|
      modifies this
      ensures items == old(items)[i := old(items)[i].(value := Some(v))]
    {
      items := items[i := items[i].(value := Some(v))];
    }
  }
}
