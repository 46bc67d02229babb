/**
 * The Clerk webhook endpoint: it checks the configured secret, the body size,
 * the Svix signature and the JSON shape, in that order, then applies a user
 * event to the user table.  The Svix signature scheme and JSON decoding are
 * parameters: only their verdicts matter here.
 */
module ClerkWebhook {
  import opened Wrappers
  import opened Bytes
  import Uuids
  import opened Model
  import UserRepository

  datatype EmailAddress = EmailAddress(emailAddress: string, id: string)

  datatype UserData = UserData(
    id: string,
    emailAddresses: seq<EmailAddress>,
    primaryEmailAddressId: string,
    firstName: Option<string>,
    lastName: Option<string>,
    imageUrl: Option<string>)

  datatype Event = Event(data: UserData, eventType: string)

  /** The request headers, as `http.Header` holds them. */
  type Headers = map<string, seq<string>>

  /** The Svix library's two verdicts: whether a secret is usable, and whether a payload's
      signature headers match it under that secret. */
  datatype Svix = Svix(accepts: string -> bool, verify: (string, seq<byte>, Headers) -> bool)

  /** `json.Unmarshal` into an event: None when the payload does not decode. */
  type Decoder = seq<byte> -> Option<Event>

  /** The cap `http.MaxBytesReader` puts on the body: 1 << 20 bytes. */
  const MaxBodyBytes: nat := 0x10_0000

  const StatusOK: int := 200
  const StatusBadRequest: int := 400
  const StatusUnauthorized: int := 401
  const StatusInternalServerError: int := 500

  /** The text of the JSON error body: a fixed message, or the text of a store error. */
  datatype Failure = Message(text: string) | Store(error: StoreError)

  datatype Response = Response(status: int, error: Option<Failure>)

  datatype Handled = Handled(response: Response, users: UserRepository.UserTable)

  /** The index of the first address whose id is `id`. */
  function FirstMatch(addrs: seq<EmailAddress>, id: string): (r: Option<nat>)
    ensures r.Some? ==> r.value < |addrs| && addrs[r.value].id == id
    ensures r.Some? ==> forall j :: 0 <= j < r.value ==> addrs[j].id != id
    ensures r.None? ==> forall j :: 0 <= j < |addrs| ==> addrs[j].id != id
  {
    if |addrs| == 0 then None
    else if addrs[0].id == id then Some(0)
    else match FirstMatch(addrs[1..], id)
      case None => None
      case Some(k) => Some(k + 1)
  }

  /** The primary e-mail: the address of the first entry with the primary id; if that gives
      the empty string, the first entry's address; with no entries, "". */
  function PrimaryEmail(addrs: seq<EmailAddress>, primaryId: string): (email: string)
    ensures var m := FirstMatch(addrs, primaryId);
      m.Some? && addrs[m.value].emailAddress != "" ==> email == addrs[m.value].emailAddress
    ensures var m := FirstMatch(addrs, primaryId);
      |addrs| > 0 && (m.None? || addrs[m.value].emailAddress == "") ==> email == addrs[0].emailAddress
    ensures |addrs| == 0 ==> email == ""
  {
    var selected := match FirstMatch(addrs, primaryId)
      case Some(i) => addrs[i].emailAddress
      case None => "";
    if selected == "" && |addrs| > 0 then addrs[0].emailAddress else selected
  }

  /** The payload an upsert writes for a created or updated user. */
  function Payload(data: UserData): UserRepository.UserInput {
    UserRepository.UserInput(data.id, PrimaryEmail(data.emailAddresses, data.primaryEmailAddressId),
      data.firstName, data.lastName, data.imageUrl)
  }

  function Fail(status: int, message: string, users: UserRepository.UserTable): Handled {
    Handled(Response(status, Some(Message(message))), users)
  }

  /** Applies a verified, decoded event.  `freshId`, `now` and `fault` are what the database
      would generate or report for the one statement the event runs. */
  function Dispatch(event: Event, users: UserRepository.UserTable, freshId: Uuids.Uuid, now: Time,
                    fault: Option<string>): (h: Handled)
    ensures event.eventType in {"user.created", "user.updated"} ==>
      var s := UserRepository.Upsert(users, Payload(event.data), freshId, now, fault);
      && h.users == s.table
      && (h.response.status == StatusOK <==> s.result.Ok?)
      && (s.result.Err? ==> h.response.error == Some(Store(s.result.error)))
    ensures event.eventType == "user.deleted" ==>
      var s := UserRepository.DeleteByClerkID(users, event.data.id, fault);
      && h.users == s.table
      && (h.response.status == StatusOK <==> s.result.Ok?)
      && (s.result.Err? ==> h.response.error == Some(Store(s.result.error)))
    ensures event.eventType !in {"user.created", "user.updated", "user.deleted"} ==>
      h == Handled(Response(StatusOK, None), users)
    ensures h.response.status == StatusOK || h.response.status == StatusInternalServerError
    ensures h.response.status == StatusOK <==> h.response.error.None?
    ensures h.response.status != StatusOK ==> h.users == users && h.response.error.value.Store?
  {
    match event.eventType
    case "user.created" | "user.updated" =>
      var s := UserRepository.Upsert(users, Payload(event.data), freshId, now, fault);
      if s.result.Err? then Handled(Response(StatusInternalServerError, Some(Store(s.result.error))), s.table)
      else Handled(Response(StatusOK, None), s.table)
    case "user.deleted" =>
      var s := UserRepository.DeleteByClerkID(users, event.data.id, fault);
      if s.result.Err? then Handled(Response(StatusInternalServerError, Some(Store(s.result.error))), s.table)
      else Handled(Response(StatusOK, None), s.table)
    case _ => Handled(Response(StatusOK, None), users)
  }

  /** `Handle`. */
  function Handle(secret: string, svix: Svix, headers: Headers, body: seq<byte>, decode: Decoder,
                  users: UserRepository.UserTable, freshId: Uuids.Uuid, now: Time, fault: Option<string>)
    : (h: Handled)
    ensures secret == "" ==>
      h == Fail(StatusInternalServerError, "Webhook secret is not configured", users)
    ensures secret != "" && !svix.accepts(secret) ==>
      h == Fail(StatusInternalServerError, "Failed to initialize webhook verifier", users)
    ensures secret != "" && svix.accepts(secret) && |body| > MaxBodyBytes ==>
      h == Fail(StatusBadRequest, "Failed to read request body or payload too large", users)
    ensures secret != "" && svix.accepts(secret) && |body| <= MaxBodyBytes && !svix.verify(secret, body, headers) ==>
      h == Fail(StatusUnauthorized, "Invalid webhook signature", users)
    ensures secret != "" && svix.accepts(secret) && |body| <= MaxBodyBytes && svix.verify(secret, body, headers) ==>
      h == match decode(body)
        case None => Fail(StatusBadRequest, "Failed to parse webhook payload", users)
        case Some(event) => Dispatch(event, users, freshId, now, fault)
    ensures h.response.status != StatusOK ==> h.users == users
  {
    if secret == "" then Fail(StatusInternalServerError, "Webhook secret is not configured", users)
    else if !svix.accepts(secret) then Fail(StatusInternalServerError, "Failed to initialize webhook verifier", users)
    else if |body| > MaxBodyBytes then Fail(StatusBadRequest, "Failed to read request body or payload too large", users)
    else if !svix.verify(secret, body, headers) then Fail(StatusUnauthorized, "Invalid webhook signature", users)
    else match decode(body)
      case None => Fail(StatusBadRequest, "Failed to parse webhook payload", users)
      case Some(event) => Dispatch(event, users, freshId, now, fault)
  }

  /** A request whose signature does not verify is answered the same whatever its payload
      would decode to: the payload is never parsed, let alone applied. */
  lemma UnverifiedNeverParsed(secret: string, svix: Svix, headers: Headers, body: seq<byte>,
                              d1: Decoder, d2: Decoder, users: UserRepository.UserTable,
                              freshId: Uuids.Uuid, now: Time, fault: Option<string>)
    requires !svix.verify(secret, body, headers)
    ensures Handle(secret, svix, headers, body, d1, users, freshId, now, fault)
         == Handle(secret, svix, headers, body, d2, users, freshId, now, fault)
  {
  }

  /** An oversized body is refused before the signature is looked at. */
  lemma OversizeBeforeSignature(secret: string, s1: Svix, s2: Svix, headers: Headers, body: seq<byte>,
                                decode: Decoder, users: UserRepository.UserTable,
                                freshId: Uuids.Uuid, now: Time, fault: Option<string>)
    requires secret != "" && s1.accepts(secret) && s2.accepts(secret)
    requires |body| > MaxBodyBytes
    ensures Handle(secret, s1, headers, body, decode, users, freshId, now, fault)
         == Handle(secret, s2, headers, body, decode, users, freshId, now, fault)
    ensures Handle(secret, s1, headers, body, decode, users, freshId, now, fault).response.status == StatusBadRequest
  {
  }

  /** Whatever arrives, the user table stays well formed. */
  lemma HandleKeepsValid(secret: string, svix: Svix, headers: Headers, body: seq<byte>, decode: Decoder,
                         users: UserRepository.UserTable, freshId: Uuids.Uuid, now: Time, fault: Option<string>)
    requires UserRepository.Valid(users)
    ensures UserRepository.Valid(Handle(secret, svix, headers, body, decode, users, freshId, now, fault).users)
  {
    var h := Handle(secret, svix, headers, body, decode, users, freshId, now, fault);
    if h.users != users {
      var event := decode(body).value;
      if event.eventType in {"user.created", "user.updated"} {
        UserRepository.UpsertValid(users, Payload(event.data), freshId, now, fault);
      } else {
        UserRepository.DeleteTwice(users, event.data.id);
      }
    }
  }

  /** A verified created/updated event leaves exactly one row for the Clerk ID, holding the
      chosen primary e-mail, names and image; other users' rows are untouched. */
  lemma UpsertEventApplied(event: Event, users: UserRepository.UserTable, freshId: Uuids.Uuid, now: Time,
                           other: string)
    requires event.eventType in {"user.created", "user.updated"}
    requires UserRepository.Upsert(users, Payload(event.data), freshId, now, None).result.Ok?
    requires other != event.data.id
    ensures var h := Dispatch(event, users, freshId, now, None);
      && h.response == Response(StatusOK, None)
      && event.data.id in h.users.rows
      && h.users.rows[event.data.id].email == PrimaryEmail(event.data.emailAddresses, event.data.primaryEmailAddressId)
      && h.users.rows[event.data.id].firstName == event.data.firstName
      && h.users.rows[event.data.id].lastName == event.data.lastName
      && h.users.rows[event.data.id].imageUrl == event.data.imageUrl
      && (other in h.users.rows <==> other in users.rows)
      && (other in users.rows ==> h.users.rows[other] == users.rows[other])
  {
    UserRepository.UpsertFrame(users, Payload(event.data), freshId, now, None, other);
  }

  /** A deletion for an unknown Clerk ID is a server error (the not-found error is not
      ignored), and changes nothing. */
  lemma DeleteUnknownIsServerError(event: Event, users: UserRepository.UserTable, freshId: Uuids.Uuid, now: Time)
    requires event.eventType == "user.deleted" && event.data.id !in users.rows
    ensures Dispatch(event, users, freshId, now, None)
         == Handled(Response(StatusInternalServerError, Some(Store(ErrNotFound))), users)
  {
  }

  /** The primary e-mail examples: the matching entry wins over earlier ones, an empty match
      falls back to the first entry, and a missing match does too. */
  lemma PrimaryEmailExamples()
    ensures PrimaryEmail([EmailAddress("a@x", "e1"), EmailAddress("b@x", "e2")], "e2") == "b@x"
    ensures PrimaryEmail([EmailAddress("a@x", "e1"), EmailAddress("", "e2")], "e2") == "a@x"
    ensures PrimaryEmail([EmailAddress("a@x", "e1")], "e9") == "a@x"
    ensures PrimaryEmail([], "e1") == ""
  {
  }
}
