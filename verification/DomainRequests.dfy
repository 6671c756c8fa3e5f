/** What requests to the domain lists say: the list a path or a body names, the items
    they may write, and the entry they describe. */
module DomainRequests {
  import opened Ascii
  import opened Options

  import opened DomainTables

  const DEFAULT_GROUP_ID := 1
  const FTL_DEFAULT_GROUP_ID := 0

  datatype DomainError =
    | AlreadyExists(item: string)
    | InvalidInput(message: string)
    | ClientError(message: string)
    | ServerError(message: string)

  // ----- requests

  function FromFtlGroupId(id: int): int {
    if id == FTL_DEFAULT_GROUP_ID then DEFAULT_GROUP_ID else id
  }

  function FirstGroup(groups: Option<seq<int>>): Option<int> {
    match groups
    case Some(ids) => if ids == [] then None else Some(FromFtlGroupId(ids[0]))
    case None => None
  }

  /** An empty string is no comment. */
  function RequestComment(comment: Option<string>): Option<string> {
    if comment == Some("") then None else comment
  }

  datatype UpdateRequest = UpdateRequest(
    domainType: Option<string>, kind: Option<string>,
    comment: Option<string>, groups: Option<seq<int>>, enabled: Option<bool>)

  function ActionFromPath(segment: string): Option<Action> {
    if segment == "allow" then Some(Allow) else if segment == "deny" then Some(Deny) else None
  }

  function KindFromPath(segment: string): Option<Kind> {
    if segment == "exact" then Some(Exact) else if segment == "regex" then Some(Regex) else None
  }

  datatype ListSelector = ListSelector(action: Option<Action>, kind: Option<Kind>)

  function Join(segments: seq<string>): string {
    if segments == [] then []
    else if |segments| == 1 then segments[0]
    else segments[0] + ['/'] + Join(segments[1..])
  }

  /** The lists the segments after `/domains` select, and the item left over. */
  function ParseSegments(segments: seq<string>): (ListSelector, string) {
    var action := if segments == [] then None else ActionFromPath(segments[0]);
    var rest := if action.Some? then segments[1..] else segments;
    var kind := if rest == [] then None else KindFromPath(rest[0]);
    var rest := if kind.Some? then rest[1..] else rest;
    (ListSelector(action, kind), Join(rest))
  }

  /** The one list a write addresses. */
  function PreciseList(domainType: string, kind: string): Option<DomainList> {
    var (selector, item) := ParseSegments([domainType, kind]);
    match (selector.action, selector.kind)
    case (Some(a), Some(k)) => if item == [] then Some(DomainList(a, k)) else None
    case _ => None
  }

  /** The list a type and a kind name together. */
  function ListNamed(domainType: string, kind: string): Option<DomainList> {
    match (ActionFromPath(domainType), KindFromPath(kind))
    case (Some(a), Some(k)) => Some(DomainList(a, k))
    case _ => None
  }

  /** A path addresses a list exactly when it is a type followed by a kind. */
  lemma PreciseExactly(domainType: string, kind: string)
    ensures PreciseList(domainType, kind) == ListNamed(domainType, kind)
  {
    var segments := [domainType, kind];
    assert segments[1..] == [kind];
    TypesAreNotKinds(domainType);
  }

  lemma TypesAreNotKinds(segment: string)
    ensures ActionFromPath(segment).None? || KindFromPath(segment).None?
  {}

  function ListFromBody(domainType: string, kind: string): Option<DomainList> {
    ListNamed(Lower(domainType), Lower(kind))
  }

  function NonEmpty(s: Option<string>): Option<string> {
    if s == Some("") then None else s
  }

  /** The list a PUT entry is in now; without a type and kind it stays where it is. */
  function PreviousList(body: UpdateRequest, to: DomainList): Result<DomainList, DomainError> {
    match (NonEmpty(body.domainType), NonEmpty(body.kind))
    case (None, None) => Ok(to)
    case (None, Some(_)) => Err(InvalidInput("Field type missing from request"))
    case (Some(_), None) => Err(InvalidInput("Field kind missing from request"))
    case (Some(t), Some(k)) =>
      match ListFromBody(t, k)
      case Some(list) => Ok(list)
      case None => Err(InvalidInput("Cannot interpret type/kind"))
  }

  /** The entry a PUT writes to a list. */
  function Wanted(action: Action, item: string, body: UpdateRequest, otherwise: int): Entry {
    Entry(action, item, FirstGroup(body.groups).GetOr(otherwise),
          RequestComment(body.comment), body.enabled.GetOr(true))
  }

  // ----- items and replies

  datatype CrudError = UriError | BadRequest | DatabaseError | Domain(error: DomainError)

  datatype Processed = Processed(success: seq<string>, errors: seq<string>)

  /** The check of an ASCII item before anything is written; `valid` stands for the domain syntax. */
  function PrepareItem(item: string, kind: Kind, valid: string -> bool): Result<string, CrudError> {
    if '\r' in item || '\n' in item then Err(BadRequest)
    else if kind == Regex then Ok(item)
    else if ' ' in item || '\t' in item then Err(BadRequest)
    else if valid(Lower(item)) then Ok(Lower(item))
    else Err(BadRequest)
  }

  /** A client error is filed with the reply; a server error ends the request. */
  function Record(processed: Processed, item: string, result: Result<(), DomainError>): Result<Processed, DomainError> {
    match result
    case Ok(_) => Ok(processed.(success := processed.success + [item]))
    case Err(ServerError(m)) => Err(ServerError(m))
    case Err(_) => Ok(processed.(errors := processed.errors + [item]))
  }

  function WriteStatus(processed: Processed): Result<(), CrudError> {
    if processed.errors != [] && processed.success == [] then Err(DatabaseError) else Ok(())
  }

  /** The items of a POST, prepared; none at all or an empty one is refused. */
  function PrepareItems(items: seq<string>, kind: Kind, valid: string -> bool): Result<seq<string>, CrudError> {
    if items == [] || [] in items then Err(BadRequest) else PrepareEach(items, kind, valid)
  }

  function PrepareEach(items: seq<string>, kind: Kind, valid: string -> bool): (r: Result<seq<string>, CrudError>)
    ensures r.Ok? ==> |r.value| == |items|
  {
    if items == [] then Ok([])
    else
      match PrepareEach(items[..|items| - 1], kind, valid)
      case Err(e) => Err(e)
      case Ok(front) =>
        match PrepareItem(items[|items| - 1], kind, valid)
        case Err(e) => Err(e)
        case Ok(last) => Ok(front + [last])
  }

  /** The attributes a POST gives every item. */
  function NewEntry(action: Action, groups: Option<seq<int>>, comment: Option<string>, enabled: Option<bool>): Entry {
    Entry(action, "", FirstGroup(groups).GetOr(DEFAULT_GROUP_ID), RequestComment(comment), enabled.GetOr(true))
  }

  // ----- the same, told from the request alone

  /** A path names a list: the type, then the kind, in lower case. */
  predicate PathNames(domainType: string, kind: string, list: DomainList) {
    && domainType == (match list.action case Allow => "allow" case Deny => "deny")
    && kind == (match list.kind case Exact => "exact" case Regex => "regex")
  }

  lemma PathNamesExactly(domainType: string, kind: string, list: DomainList)
    ensures ListNamed(domainType, kind) == Some(list) <==> PathNames(domainType, kind, list)
  {
    ActionNamed(domainType);
    KindNamed(kind);
  }

  lemma ActionNamed(segment: string)
    ensures ActionFromPath(segment) == Some(Allow) <==> segment == "allow"
    ensures ActionFromPath(segment) == Some(Deny) <==> segment == "deny"
  {
    assert |"allow"| == 5 && |"deny"| == 4;
  }

  lemma KindNamed(segment: string)
    ensures KindFromPath(segment) == Some(Exact) <==> segment == "exact"
    ensures KindFromPath(segment) == Some(Regex) <==> segment == "regex"
  {
    assert "exact"[0] == 'e' && "regex"[0] == 'r';
  }

  predicate Absent(field: Option<string>) {
    field == None || field == Some("")
  }

  /** A body names a list: the same words, in whatever case. */
  predicate BodyNames(domainType: string, kind: string, list: DomainList) {
    && SameIgnoringCase(domainType, match list.action case Allow => "allow" case Deny => "deny")
    && SameIgnoringCase(kind, match list.kind case Exact => "exact" case Regex => "regex")
  }

  /** The list the body of a PUT to `to` says the entry is in: `to` when it names none. */
  predicate NamesPrevious(body: UpdateRequest, to: DomainList, from: DomainList) {
    if Absent(body.domainType) && Absent(body.kind) then from == to
    else !Absent(body.domainType) && !Absent(body.kind) && BodyNames(body.domainType.value, body.kind.value, from)
  }

  lemma LowerWord(text: string, word: string)
    requires IsLower(word)
    ensures Lower(text) == word <==> SameIgnoringCase(text, word)
  {
    LowerIsLower(word);
    LowerEqualExactly(text, word);
  }

  lemma BodyNamesExactly(domainType: string, kind: string, list: DomainList)
    ensures ListFromBody(domainType, kind) == Some(list) <==> BodyNames(domainType, kind, list)
  {
    PathNamesExactly(Lower(domainType), Lower(kind), list);
    LowerWord(domainType, match list.action case Allow => "allow" case Deny => "deny");
    LowerWord(kind, match list.kind case Exact => "exact" case Regex => "regex");
  }

  /** A PUT takes its entry from the list its body names, and fails as a client's mistake
      when it names only half a list or none there is. */
  lemma PreviousExactly(body: UpdateRequest, to: DomainList, from: DomainList)
    ensures PreviousList(body, to) == Ok(from) <==> NamesPrevious(body, to, from)
    ensures PreviousList(body, to).Err? ==> PreviousList(body, to).error.InvalidInput?
  {
    if !Absent(body.domainType) && !Absent(body.kind) {
      BodyNamesExactly(body.domainType.value, body.kind.value, from);
    }
  }

  /** The entry a request describes: no comment when it is absent or empty, enabled unless
      told otherwise, in the first group named, FTL's 0 being 1, or else in `otherwise`. */
  predicate Describes(
    entry: Entry, action: Action, item: string, groups: Option<seq<int>>, comment: Option<string>,
    enabled: Option<bool>, otherwise: int)
  {
    && entry.action == action && entry.item == item
    && (if Absent(comment) then entry.comment == None else entry.comment == comment)
    && (if enabled == Some(false) then !entry.enabled else entry.enabled)
    && (if groups == None || groups == Some([]) then entry.group == otherwise
        else if groups.value[0] == 0 then entry.group == 1
        else entry.group == groups.value[0])
  }

  /** What a PUT writes and what a POST writes are what they describe, and only that. */
  lemma DescribesExactly(
    entry: Entry, action: Action, item: string, groups: Option<seq<int>>, comment: Option<string>,
    enabled: Option<bool>, otherwise: int)
    ensures Describes(entry, action, item, groups, comment, enabled, otherwise)
       <==> entry == Wanted(action, item, UpdateRequest(None, None, comment, groups, enabled), otherwise)
    ensures Describes(entry, action, item, groups, comment, enabled, 1)
       <==> entry == NewEntry(action, groups, comment, enabled).(item := item)
  {}

  /** `prepared` is how `item` is written to a list of this kind: without line breaks, and for
      an exact list without blanks, valid, and in lower case. */
  ghost predicate Prepared(item: string, kind: Kind, valid: string -> bool, prepared: string) {
    && (forall i :: 0 <= i < |item| ==> item[i] != '\r' && item[i] != '\n')
    && match kind
       case Regex => prepared == item
       case Exact =>
         && (forall i :: 0 <= i < |item| ==> item[i] != ' ' && item[i] != '\t')
         && SameIgnoringCase(prepared, item)
         && (forall i :: 0 <= i < |prepared| ==> !('A' <= prepared[i] <= 'Z'))
         && valid(prepared)
  }

  lemma LoweredExactly(item: string, prepared: string)
    ensures prepared == Lower(item)
       <==> SameIgnoringCase(prepared, item) && forall i :: 0 <= i < |prepared| ==> !('A' <= prepared[i] <= 'Z')
  {
    LowerEqualExactly(prepared, item);
    LowerIsLower(prepared);
    LowerIsLower(item);
    assert IsLower(prepared) <==> forall i :: 0 <= i < |prepared| ==> !('A' <= prepared[i] <= 'Z');
    if prepared == Lower(item) {
      assert IsLower(prepared);
    }
  }

  lemma PrepareExactly(item: string, kind: Kind, valid: string -> bool, prepared: string)
    ensures PrepareItem(item, kind, valid) == Ok(prepared) <==> Prepared(item, kind, valid, prepared)
    ensures PrepareItem(item, kind, valid).Err? ==> PrepareItem(item, kind, valid).error == BadRequest
  {
    LoweredExactly(item, prepared);
  }

  lemma {:induction false} PrepareEachExactly(items: seq<string>, kind: Kind, valid: string -> bool, i: nat)
    requires PrepareEach(items, kind, valid).Ok? && i < |items|
    ensures Prepared(items[i], kind, valid, PrepareEach(items, kind, valid).value[i])
    decreases |items|
  {
    var front := items[..|items| - 1];
    if i < |front| {
      PrepareEachExactly(front, kind, valid, i);
    } else {
      PrepareExactly(items[i], kind, valid, PrepareEach(items, kind, valid).value[i]);
    }
  }

  ghost predicate Refused(item: string, kind: Kind, valid: string -> bool) {
    forall prepared :: !Prepared(item, kind, valid, prepared)
  }

  lemma {:induction false} UnpreparedItem(items: seq<string>, kind: Kind, valid: string -> bool) returns (i: nat)
    requires PrepareEach(items, kind, valid).Err?
    ensures i < |items| && Refused(items[i], kind, valid)
    ensures PrepareEach(items, kind, valid) == Err(BadRequest)
    decreases |items|
  {
    var front := items[..|items| - 1];
    if PrepareEach(front, kind, valid).Err? {
      i := UnpreparedItem(front, kind, valid);
      assert items[i] == front[i];
    } else {
      i := |front|;
      forall prepared ensures !Prepared(items[i], kind, valid, prepared) {
        PrepareExactly(items[i], kind, valid, prepared);
      }
      PrepareExactly(items[i], kind, valid, []);
    }
  }

  /** A POST writes its items, each prepared, or none when there are none or one is empty or
      cannot be prepared. */
  lemma PrepareItemsExactly(items: seq<string>, kind: Kind, valid: string -> bool)
    ensures match PrepareItems(items, kind, valid)
            case Ok(prepared) =>
              && items != [] && |prepared| == |items|
              && forall i :: 0 <= i < |items| ==> items[i] != [] && Prepared(items[i], kind, valid, prepared[i])
            case Err(e) =>
              && e == BadRequest
              && (items == [] || exists i :: 0 <= i < |items| && (items[i] == [] || Refused(items[i], kind, valid)))
  {
    if [] in items {
      var i :| 0 <= i < |items| && items[i] == [];
    } else if items != [] {
      if PrepareEach(items, kind, valid).Ok? {
        forall i: nat | i < |items|
          ensures items[i] != [] && Prepared(items[i], kind, valid, PrepareEach(items, kind, valid).value[i]) {
          PrepareEachExactly(items, kind, valid, i);
          assert items[i] in items;
        }
      } else {
        var i := UnpreparedItem(items, kind, valid);
      }
    }
  }

  /** A server error ends the request; of any other outcome the reply keeps the item. */
  lemma RecordExactly(processed: Processed, item: string, result: Result<(), DomainError>)
    ensures Record(processed, item, result).Err? <==> result.Err? && result.error.ServerError?
    ensures match Record(processed, item, result)
            case Err(e) => result == Err(e)
            case Ok(after) =>
              && after.success == processed.success + (if result.Ok? then [item] else [])
              && after.errors == processed.errors + (if result.Ok? then [] else [item])
  {}
}
