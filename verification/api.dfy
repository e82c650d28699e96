/**
 * What an endpoint answers, and the per-field validation messages that the
 * serializers produce. Field errors are kept in field-declaration order, one
 * entry per failing field, each with its list of messages.
 */
module Api {
  import opened Wrappers
  import opened Models

  datatype FieldError = FieldError(field: string, messages: seq<string>)

  /** The response of an endpoint with success body of type T. */
  datatype Response<T> =
    | Ok(body: T)                          // 200
    | Created(body: T)                     // 201
    | NoContent                            // 204
    | BadRequest(errors: seq<FieldError>)  // 400, per-field validation errors
    | ParseError(detail: string)           // 400, a single detail message
    | Unauthenticated                      // 401
    | Forbidden                            // 403
    | NotFound(detail: string)             // 404
    | ServerError(detail: string)          // 500, an exception the view does not handle

  function StatusCode<T>(r: Response<T>): (code: nat)
    ensures 200 <= code < 600
    ensures code < 300 <==> (r.Ok? || r.Created? || r.NoContent?)
  {
    match r
    case Ok(_) => 200
    case Created(_) => 201
    case NoContent => 204
    case BadRequest(_) => 400
    case ParseError(_) => 400
    case Unauthenticated => 401
    case Forbidden => 403
    case NotFound(_) => 404
    case ServerError(_) => 500
  }

  /** A state change together with the response that reports it. */
  datatype Step<T> = Step(db: Db, response: Response<T>)

  /**
   * A refused permission check: 401 when the request carried no credentials
   * (every gated view authenticates with a bearer token), 403 otherwise.
   */
  function Denied<T>(actor: Option<Id>): (r: Response<T>)
    ensures StatusCode(r) == (if actor.None? then 401 else 403)
  {
    if actor.None? then Unauthenticated else Forbidden
  }

  /** The detail of a 404 raised by a generic lookup (`get_object_or_404`). */
  const GenericNotFound := "Not found."

  const RequiredMessage := "This field is required."
  const BlankMessage := "This field may not be blank."
  const NullCharactersMessage := "Null characters are not allowed."

  function DigitChar(d: nat): char
    requires d < 10
  {
    "0123456789"[d]
  }

  function NatToString(n: nat): string
    decreases n
  {
    if n < 10 then [DigitChar(n)] else NatToString(n / 10) + [DigitChar(n % 10)]
  }

  function TooLongMessage(max: nat): string {
    "Ensure this field has no more than " + NatToString(max) + " characters."
  }

  function InvalidChoiceMessage(given: string): string {
    "\"" + given + "\" is not a valid choice."
  }

  function NoSuchObjectMessage(pk: Id): string {
    "Invalid pk \"" + NatToString(pk) + "\" - object does not exist."
  }

  /**
   * The characters Python's `str.isspace` accepts, which `str.strip()`
   * removes: the ASCII controls tab to carriage return and 0x1C-0x1F, the
   * space, and the Unicode space separators.
   */
  predicate IsSpace(ch: char) {
    || ('\t' <= ch <= '\r') || ('\U{1C}' <= ch <= ' ')
    || ch == '\U{85}' || ch == '\U{A0}' || ch == '\U{1680}'
    || ('\U{2000}' <= ch <= '\U{200A}')
    || ch == '\U{2028}' || ch == '\U{2029}' || ch == '\U{202F}' || ch == '\U{205F}' || ch == '\U{3000}'
  }

  /** `s` without its leading whitespace. */
  function TrimLeft(s: string): (t: string)
    ensures |t| <= |s|
    ensures t != [] ==> !IsSpace(t[0])
  {
    if s != [] && IsSpace(s[0]) then TrimLeft(s[1..]) else s
  }

  /** `s` without its trailing whitespace. */
  function TrimRight(s: string): (t: string)
    ensures |t| <= |s|
    ensures t != [] ==> !IsSpace(t[|t| - 1])
    ensures t == [] && s != [] ==> IsSpace(s[0])
  {
    if s != [] && IsSpace(s[|s| - 1]) then TrimRight(s[..|s| - 1]) else s
  }

  /**
   * `str.strip()`, which every text field of a serializer applies to its input
   * (`trim_whitespace` is on by default): a non-empty result neither starts
   * nor ends with whitespace.
   */
  function Trim(s: string): (t: string)
    ensures |t| <= |s|
    ensures t != [] ==> !IsSpace(t[0]) && !IsSpace(t[|t| - 1])
  {
    var l := TrimLeft(s);
    TrimRightIsPrefix(l);
    TrimRight(l)
  }

  /** What `TrimLeft` drops is whitespace, and what it keeps is the rest of the string. */
  lemma {:induction false} TrimLeftIsSuffix(s: string)
    ensures var t := TrimLeft(s); t == s[|s| - |t|..] && forall i :: 0 <= i < |s| - |t| ==> IsSpace(s[i])
  {
    if s != [] && IsSpace(s[0]) {
      TrimLeftIsSuffix(s[1..]);
    }
  }

  /** What `TrimRight` drops is whitespace, and what it keeps is the start of the string. */
  lemma {:induction false} TrimRightIsPrefix(s: string)
    ensures var t := TrimRight(s); t == s[..|t|] && forall i :: |t| <= i < |s| ==> IsSpace(s[i])
  {
    if s != [] && IsSpace(s[|s| - 1]) {
      TrimRightIsPrefix(s[..|s| - 1]);
    }
  }

  /**
   * Trimming removes whitespace only, and only at the two ends: the result is
   * the slice of the input between a whitespace prefix and a whitespace suffix.
   */
  lemma TrimRemovesOnlySurroundingSpace(s: string)
    ensures var k := |s| - |TrimLeft(s)|;
      && k + |Trim(s)| <= |s|
      && Trim(s) == s[k..k + |Trim(s)|]
      && (forall i :: 0 <= i < k ==> IsSpace(s[i]))
      && (forall i :: k + |Trim(s)| <= i < |s| ==> IsSpace(s[i]))
  {
    TrimLeftIsSuffix(s);
    var l := TrimLeft(s);
    TrimRightIsPrefix(l);
    var k := |s| - |l|;
    forall i | k + |Trim(s)| <= i < |s| ensures IsSpace(s[i]) {
      assert s[i] == l[i - k];
    }
  }

  /** The trim is empty exactly when the input is all whitespace, which is when a field reports "blank". */
  lemma TrimBlankIffAllSpace(s: string)
    ensures Trim(s) == [] <==> forall i :: 0 <= i < |s| ==> IsSpace(s[i])
  {
    TrimRemovesOnlySurroundingSpace(s);
    var k := |s| - |TrimLeft(s)|;
    if Trim(s) != [] {
      assert s[k] == Trim(s)[0];
    }
  }

  /** A string without surrounding whitespace is its own trim. */
  lemma TrimKeepsTrimmed(s: string)
    requires s != [] ==> !IsSpace(s[0]) && !IsSpace(s[|s| - 1])
    ensures Trim(s) == s
  {
  }

  /** Trimming twice is trimming once. */
  lemma TrimIdempotent(s: string)
    ensures Trim(Trim(s)) == Trim(s)
  {
    TrimKeepsTrimmed(Trim(s));
  }

  /**
   * A text value that is acceptable for a field: present unless optional, and
   * once trimmed not blank, short enough and not taken.
   */
  predicate TextAcceptable(value: Option<string>, required: bool, max: nat, taken: bool) {
    match value
    case None => !required
    case Some(s) => Trim(s) != "" && |Trim(s)| <= max && !taken && '\0' !in Trim(s)
  }

  /**
   * The messages of one text field, on the trimmed value: "required" when it is
   * absent and required, "blank" when nothing but whitespace is left (which
   * stops further checks), otherwise the uniqueness message when the value is
   * taken, then the length message when it is too long, then the message of
   * the null-character validator when it contains U+0000.
   */
  function TextMessages(value: Option<string>, required: bool, max: nat, taken: bool, uniqueMessage: string): (msgs: seq<string>)
    ensures msgs == [] <==> TextAcceptable(value, required, max, taken)
    ensures value.None? && required ==> msgs == [RequiredMessage]
    ensures value.Some? && Trim(value.value) == "" ==> msgs == [BlankMessage]
    ensures value.Some? && Trim(value.value) != "" ==>
      && |msgs| == (if taken then 1 else 0) + (if |Trim(value.value)| > max then 1 else 0) + (if '\0' in Trim(value.value) then 1 else 0)
      && (taken ==> msgs[0] == uniqueMessage)
      && (|Trim(value.value)| > max ==> msgs[if taken then 1 else 0] == TooLongMessage(max))
      && ('\0' in Trim(value.value) ==> msgs[|msgs| - 1] == NullCharactersMessage)
  {
    match value
    case None => if required then [RequiredMessage] else []
    case Some(s) =>
      var t := Trim(s);
      if t == "" then [BlankMessage]
      else
        (if taken then [uniqueMessage] else [])
        + (if |t| > max then [TooLongMessage(max)] else [])
        + (if '\0' in t then [NullCharactersMessage] else [])
  }

  /** The error entry of one field, or nothing when the field has no messages. */
  function FieldEntry(field: string, msgs: seq<string>): seq<FieldError> {
    if msgs == [] then [] else [FieldError(field, msgs)]
  }

  /** `[field]` when the field fails, nothing otherwise. */
  function IfFails(field: string, fails: bool): seq<string> {
    if fails then [field] else []
  }

  /** The fields named in a list of field errors, in order. */
  function Fields(errs: seq<FieldError>): seq<string> {
    if errs == [] then [] else [errs[0].field] + Fields(errs[1..])
  }

  lemma {:induction false} FieldsAppend(a: seq<FieldError>, b: seq<FieldError>)
    ensures Fields(a + b) == Fields(a) + Fields(b)
  {
    if a == [] {
      assert a + b == b;
    } else {
      assert (a + b)[0] == a[0];
      assert (a + b)[1..] == a[1..] + b;
      FieldsAppend(a[1..], b);
    }
  }

  lemma FieldsOfEntry(field: string, msgs: seq<string>)
    ensures Fields(FieldEntry(field, msgs)) == IfFails(field, msgs != [])
  {
  }
}
