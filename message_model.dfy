/** Messages: the stored record, the text rules and the two pydantic models (`MessageSchema`, `MessageIn`). */
module MessageModel {
  import opened Wrappers
  import opened ObjectIds
  import opened Documents
  import opened Fields

  datatype MessageData = MessageData(uid: Id, cid: Id, text: string, createdAt: Time)

  type Message = Doc<MessageData>

  function MessageUid(m: Message): Id { m.data.uid }

  function MessageCid(m: Message): Id { m.data.cid }

  const MaxTextLength: nat := 1000

  /** The characters `str.strip()` removes: those for which `str.isspace()` holds. */
  predicate IsPyWhitespace(c: char) {
    var k := c as int;
    || 0x09 <= k <= 0x0D || 0x1C <= k <= 0x20 || k == 0x85 || k == 0xA0 || k == 0x1680
    || 0x2000 <= k <= 0x200A || k == 0x2028 || k == 0x2029 || k == 0x202F || k == 0x205F || k == 0x3000
  }

  /** Empty, or nothing but whitespace: what is left after stripping is empty. */
  predicate IsBlank(s: string) {
    forall i :: 0 <= i < |s| ==> IsPyWhitespace(s[i])
  }

  /** The `text_not_blank` validator. */
  function TextNotBlank(v: string): (r: Result<string, FieldError>)
    ensures r.Ok? <==> exists i :: 0 <= i < |v| && !IsPyWhitespace(v[i])
    ensures r.Ok? ==> r.value == v
    ensures r.Err? ==> r.error == Blank("text")
  {
    if v == [] || IsBlank(v) then Err(Blank("text")) else Ok(v)
  }

  /** The `text` field: `max_length=1000`, then `text_not_blank`. */
  function CheckText(text: string): (r: Result<string, FieldError>)
    ensures r.Ok? <==> |text| <= MaxTextLength && !IsBlank(text)
    ensures r.Ok? ==> r.value == text
    ensures r.Err? ==> r.error == (if |text| > MaxTextLength then TooLong("text") else Blank("text"))
  {
    if |text| > MaxTextLength then Err(TooLong("text")) else TextNotBlank(text)
  }

  /** The required `text` field: missing, then `max_length=1000`, then `text_not_blank`. */
  function CheckTextField(text: Option<string>): (r: Result<string, FieldError>)
    ensures r.Ok? <==> text.Some? && |text.value| <= MaxTextLength && !IsBlank(text.value)
    ensures r.Ok? ==> r.value == text.value
    ensures r.Err? ==> r.error.field == "text"
  {
    if text.None? then Err(Missing("text")) else CheckText(text.value)
  }

  /** A message as the `MessageIn` request body carries it. */
  datatype MessageInput = MessageInput(uid: Id, cid: Id, text: string)

  /** The errors of the fields uid, cid and text, in declaration order; `None` is a field not supplied. */
  function MessageFieldErrors(uid: Option<string>, cid: Option<string>, text: Option<string>): seq<FieldError> {
    ErrorsOf(RequireObjectIdField("uid", uid)) + ErrorsOf(RequireObjectIdField("cid", cid)) + ErrorsOf(CheckTextField(text))
  }

  /** Building a `MessageIn`: all three fields are required. */
  function ValidateMessageIn(uid: Option<string>, cid: Option<string>, text: Option<string>)
    : (r: Result<MessageInput, seq<FieldError>>)
    ensures r.Ok? <==>
      && uid.Some? && IsValidId(uid.value)
      && cid.Some? && IsValidId(cid.value)
      && text.Some? && |text.value| <= MaxTextLength && !IsBlank(text.value)
    ensures r.Ok? ==> r.value == MessageInput(uid.value, cid.value, text.value)
    ensures r.Err? ==> r.error != []
  {
    var errors := MessageFieldErrors(uid, cid, text);
    if errors == [] then Ok(MessageInput(uid.value, cid.value, text.value)) else Err(errors)
  }

  /** A rejected `MessageIn` reports uid and cid as missing or as not an ObjectId exactly when they are. */
  lemma MessageInIdErrors(uid: Option<string>, cid: Option<string>, text: Option<string>)
    ensures var r := ValidateMessageIn(uid, cid, text);
      r.Err? ==>
        && (Missing("uid") in r.error <==> uid.None?)
        && (InvalidObjectId("uid") in r.error <==> uid.Some? && !IsValidId(uid.value))
        && (Missing("cid") in r.error <==> cid.None?)
        && (InvalidObjectId("cid") in r.error <==> cid.Some? && !IsValidId(cid.value))
  {
    var r := ValidateMessageIn(uid, cid, text);
    if r.Err? {
      var ids := ErrorsOf(RequireObjectIdField("uid", uid)) + ErrorsOf(RequireObjectIdField("cid", cid));
      var texts := ErrorsOf(CheckTextField(text));
      assert r.error == ids + texts;
      assert forall e: FieldError :: e in texts ==> e.field == "text";
    }
  }

  /** A rejected `MessageIn` reports text as missing, too long or blank exactly when it is. */
  lemma MessageInTextErrors(uid: Option<string>, cid: Option<string>, text: Option<string>)
    ensures var r := ValidateMessageIn(uid, cid, text);
      r.Err? ==>
        && (Missing("text") in r.error <==> text.None?)
        && (TooLong("text") in r.error <==> text.Some? && |text.value| > MaxTextLength)
        && (Blank("text") in r.error <==> text.Some? && |text.value| <= MaxTextLength && IsBlank(text.value))
  {
    var r := ValidateMessageIn(uid, cid, text);
    if r.Err? {
      var ids := ErrorsOf(RequireObjectIdField("uid", uid)) + ErrorsOf(RequireObjectIdField("cid", cid));
      var texts := ErrorsOf(CheckTextField(text));
      assert r.error == ids + texts;
      assert forall e: FieldError :: e in ids ==> e.field == "uid" || e.field == "cid";
    }
  }

  /**
   * Building a `MessageSchema` (the id field aside). It accepts exactly what `MessageIn`
   * accepts, with the same errors, and `created_at` defaults to the construction time `now`.
   */
  function ValidateMessageSchema(uid: Option<string>, cid: Option<string>, text: Option<string>, createdAt: Option<Time>, now: Time)
    : (r: Result<MessageData, seq<FieldError>>)
    ensures r.Ok? <==> ValidateMessageIn(uid, cid, text).Ok?
    ensures r.Err? ==> r.error == ValidateMessageIn(uid, cid, text).error
    ensures r.Ok? ==> r.value.uid == uid.value && r.value.cid == cid.value && r.value.text == text.value
    ensures r.Ok? ==> r.value.createdAt == (if createdAt.Some? then createdAt.value else now)
  {
    var errors := MessageFieldErrors(uid, cid, text);
    if errors == [] then Ok(MessageData(uid.value, cid.value, text.value, createdAt.GetOr(now))) else Err(errors)
  }

  /** The fields an update document may set on a message (a `$set` merge). */
  datatype MessagePatch = MessagePatch(uid: Option<Id>, cid: Option<Id>, text: Option<string>, createdAt: Option<Time>)

  function ApplyMessagePatch(m: MessageData, p: MessagePatch): MessageData {
    MessageData(p.uid.GetOr(m.uid), p.cid.GetOr(m.cid), p.text.GetOr(m.text), p.createdAt.GetOr(m.createdAt))
  }
}
