/** The request handlers of the API (backend/main.py): the bearer-token
    check in front of the history routes, the field checks of registration
    and login, the generation, save, delete, listing and translation
    handlers, and the status code each outcome is answered with.

    A request body is a JSON object. What the handlers call outside this
    model is a parameter: the token verifier, the account store with its
    password check and token issuers, the generative model and the image
    decoder. The history table is the sequence of rows of the History
    module; a handler that changes it returns the new rows with the
    response. */
module Endpoints {
  import opened Wrappers
  import opened Text
  import opened Json
  import opened Gemini
  import opened History

  // ------------------------------------------------------------------
  // Responses
  // ------------------------------------------------------------------

  datatype UserInfo = UserInfo(userId: string, username: string, email: string)

  /** The JSON object a handler answers with. */
  datatype Payload =
    | ErrorBody(error: string)
    | MessageBody(message: string)
    | SessionBody(message: string, user: UserInfo, accessToken: string, refreshToken: string)
    | DescriptionBody(description: string)
    | TranslationsBody(translations: map<string, string>)
    | SavedBody(message: string, id: string, updated: bool)
    | GenerationsBody(generations: seq<Entry>)

  datatype Response = Response(status: int, body: Payload)

  function Error(status: int, message: string): Response {
    Response(status, ErrorBody(message))
  }

  /** A response together with the history table the handler leaves behind. */
  datatype Handled = Handled(response: Response, rows: seq<Row>)

  /** How an exception leaving the generation service is answered: a
      ValueError with 400, anything else with 500, both with `str(e)`. */
  function FailureResponse(e: Failure): (r: Response)
    ensures r.status == 400 <==> e.ValueError?
    ensures r.status == 400 || r.status == 500
    ensures r.body == ErrorBody(FailureMessage(e))
  {
    match e
    case ValueError(m) => Error(400, m)
    case Mapped(raw) => Error(500, FriendlyMessage(raw))
  }

  /** `data.get(key, default).strip()` for several keys in turn: the stripped
      texts, or the message of the first AttributeError. */
  function StrippedFields(body: Body, keys: seq<(string, string)>): (r: Result<seq<string>, string>)
    ensures r.Ok? ==> (|r.value| == |keys|
      && forall i :: 0 <= i < |keys| ==> StrippedField(body, keys[i].0, keys[i].1) == Ok(r.value[i]))
    ensures r.Err? ==> exists i :: (0 <= i < |keys| && StrippedField(body, keys[i].0, keys[i].1) == Err(r.error)
      && forall j :: 0 <= j < i ==> StrippedField(body, keys[j].0, keys[j].1).Ok?)
    decreases |keys|
  {
    if keys == [] then Ok([])
    else
      match StrippedField(body, keys[0].0, keys[0].1)
      case Err(m) => Err(m)
      case Ok(v) =>
        match StrippedFields(body, keys[1..])
        case Err(m) => Err(m)
        case Ok(vs) => Ok([v] + vs)
  }

  // ------------------------------------------------------------------
  // token_required
  // ------------------------------------------------------------------

  /** What a valid token carries. */
  datatype Claims = Claims(userId: string)

  /** `verify_token`: the claims of a valid, unexpired access token. */
  type Verifier = string -> Option<Claims>

  const InvalidFormat := "Invalid token format"
  const TokenMissing := "Token is missing"
  const TokenRejected := "Invalid or expired token"

  /** The bearer check: the token is the second space-separated field of the
      `Authorization` header. */
  function Authorize(header: Option<string>, verify: Verifier): Result<Claims, Response> {
    var token: Result<string, Response> :=
      if header.None? || header.value == "" then Ok("")
      else
        var fields := Split(header.value, ' ');
        if |fields| < 2 then Err(Error(401, InvalidFormat)) else Ok(fields[1]);
    match token
    case Err(resp) => Err(resp)
    case Ok(t) =>
      if t == "" then Err(Error(401, TokenMissing))
      else
        match verify(t)
        case None => Err(Error(401, TokenRejected))
        case Some(claims) => Ok(claims)
  }

  /** The four outcomes of the check, each with its condition, for any
      header: the scheme word and any third field are ignored. The handler
      runs exactly when the verifier accepts the second field, and then with
      the claims it gave. */
  lemma AuthorizeCases(header: Option<string>, verify: Verifier)
    ensures Authorize(header, verify).Err? ==> Authorize(header, verify).error.status == 401
    ensures Authorize(header, verify) == Err(Error(401, InvalidFormat)) <==>
      header.Some? && header.value != "" && ' ' !in header.value
    ensures Authorize(header, verify) == Err(Error(401, TokenMissing)) <==>
      header.None? || header.value == "" || (' ' in header.value && Split(header.value, ' ')[1] == "")
    ensures Authorize(header, verify) == Err(Error(401, TokenRejected)) <==>
      header.Some? && |Split(header.value, ' ')| >= 2 && Split(header.value, ' ')[1] != ""
      && verify(Split(header.value, ' ')[1]).None?
    ensures Authorize(header, verify).Ok? <==>
      header.Some? && |Split(header.value, ' ')| >= 2 && Split(header.value, ' ')[1] != ""
      && verify(Split(header.value, ' ')[1]).Some?
    ensures Authorize(header, verify).Ok? ==>
      && header.Some? && ' ' in header.value
      && Split(header.value, ' ')[1] != ""
      && verify(Split(header.value, ' ')[1]) == Some(Authorize(header, verify).value)
  {
    if header.Some? && header.value != "" {
      SplitSingleField(header.value, ' ');
    }
  }

  /** `Bearer <token>` with a token free of spaces reaches the verifier with
      exactly that token. */
  lemma BearerHeaderPassesToken(token: string, verify: Verifier)
    requires token != "" && ' ' !in token
    ensures Authorize(Some("Bearer " + token), verify) ==
      match verify(token)
      case None => Err(Error(401, TokenRejected))
      case Some(claims) => Ok(claims)
  {
    var parts := ["Bearer", token];
    assert "Bearer " + token == Join(parts, [' ']);
    assert ' ' !in "Bearer";
    SplitJoin(parts, ' ');
  }

  // ------------------------------------------------------------------
  // register and login
  // ------------------------------------------------------------------

  datatype Account = Account(userId: string, username: string, email: string, passwordHash: string)

  /** The account store and the token issuers the two handlers call: the
      lookups by user name and by e-mail (which may raise), account creation
      (which may return nothing or raise), the password check (which may
      raise) and the two token issuers. Issuing a refresh token stores it in
      the database, so it may raise too. */
  datatype Accounts = Accounts(
    byUsername: string -> Result<Option<Account>, string>,
    byEmail: string -> Result<Option<Account>, string>,
    create: (string, string, Json) -> Result<Option<Account>, string>,
    checkPassword: (Json, string) -> Result<bool, string>,
    accessToken: (string, string) -> string,
    refreshToken: string -> Result<string, string>)

  /** The body of a successful registration or login. */
  function Session(message: string, a: Account, svc: Accounts, refresh: string): Payload {
    SessionBody(message, UserInfo(a.userId, a.username, a.email), svc.accessToken(a.userId, a.username), refresh)
  }

  // Longer messages are concatenations of short literals, which keeps the
  // verifier's reasoning about them cheap; the concatenation is the message.
  const CredentialsRequired := "Username, email, and " + "password are required"
  const PasswordTooShort := "Password must be at least " + "6 characters"
  const UsernameTaken := "Username already exists"
  const EmailTaken := "Email already exists"
  const CreateFailed := "Failed to create user"
  const Registered := "User registered successfully"

  /** register: the user name is trimmed, the e-mail trimmed and lower-cased,
      the password taken as sent; any exception is answered with 500 and its
      message. */
  function Register(body: Body, svc: Accounts): Response {
    match StrippedFields(body, [("username", ""), ("email", "")])
    case Err(m) => Error(500, m)
    case Ok(fields) =>
      var username := fields[0];
      var email := Lower(fields[1]);
      var password := Get(body, "password", JStr(""));
      if username == "" || email == "" || !Truthy(password) then Error(400, CredentialsRequired)
      else
        match Len(password)
        case Err(m) => Error(500, m)
        case Ok(n) =>
          if n < 6 then Error(400, PasswordTooShort)
          else
            match svc.byUsername(username)
            case Err(m) => Error(500, m)
            case Ok(Some(_)) => Error(400, UsernameTaken)
            case Ok(None) =>
              match svc.byEmail(email)
              case Err(m) => Error(500, m)
              case Ok(Some(_)) => Error(400, EmailTaken)
              case Ok(None) =>
                match svc.create(username, email, password)
                case Err(m) => Error(500, m)
                case Ok(None) => Error(500, CreateFailed)
                case Ok(Some(a)) =>
                  match svc.refreshToken(a.userId)
                  case Err(m) => Error(500, m)
                  case Ok(refresh) => Response(201, Session(Registered, a, svc, refresh))
  }

  /** For a body whose user name, e-mail and password are strings, the four
      checks run in their order and each failure is a 400 with its own
      message; the account is created only when all four pass, and the
      answer is 201 only when its refresh token is issued as well. */
  lemma RegisterCheckOrder(body: Body, svc: Accounts, username: string, email: string, password: string)
    requires StrippedField(body, "username", "") == Ok(username)
    requires StrippedField(body, "email", "") == Ok(email)
    requires Get(body, "password", JStr("")) == JStr(password)
    ensures var r := Register(body, svc);
      var filled := username != "" && Lower(email) != "" && password != "";
      && (r == Error(400, CredentialsRequired) <==> !filled)
      && (r == Error(400, PasswordTooShort) <==> filled && |password| < 6)
      && (r == Error(400, UsernameTaken) <==>
            filled && |password| >= 6 && svc.byUsername(username).Ok? && svc.byUsername(username).value.Some?)
      && (r == Error(400, EmailTaken) <==>
            filled && |password| >= 6 && svc.byUsername(username) == Ok(None)
            && svc.byEmail(Lower(email)).Ok? && svc.byEmail(Lower(email)).value.Some?)
      && (r.status == 201 <==>
            filled && |password| >= 6 && svc.byUsername(username) == Ok(None) && svc.byEmail(Lower(email)) == Ok(None)
            && svc.create(username, Lower(email), JStr(password)).Ok?
            && svc.create(username, Lower(email), JStr(password)).value.Some?
            && svc.refreshToken(svc.create(username, Lower(email), JStr(password)).value.value.userId).Ok?)
  {
    var keys := [("username", ""), ("email", "")];
    var fields := StrippedFields(body, keys);
    assert StrippedField(body, keys[0].0, keys[0].1) == Ok(username);
    assert StrippedField(body, keys[1].0, keys[1].1) == Ok(email);
    assert fields.Ok? && fields.value == [username, email];
    assert |CredentialsRequired| != |PasswordTooShort| && |CredentialsRequired| != |UsernameTaken|;
    assert |CredentialsRequired| != |EmailTaken| && |PasswordTooShort| != |UsernameTaken|;
    assert |PasswordTooShort| != |EmailTaken| && |UsernameTaken| != |EmailTaken|;
  }

  const LoginFieldsRequired := "Username and password " + "are required"
  const InvalidCredentials := "Invalid credentials"
  const LoginFailed := "An error occurred during " + "login. Please try again."
  const LoggedIn := "Login successful"

  /** login: any exception is answered with 500 and one fixed message. */
  function Login(body: Body, svc: Accounts): Response {
    match StrippedField(body, "username", "")
    case Err(_) => Error(500, LoginFailed)
    case Ok(username) =>
      var password := Get(body, "password", JStr(""));
      if username == "" || !Truthy(password) then Error(400, LoginFieldsRequired)
      else
        match svc.byUsername(username)
        case Err(_) => Error(500, LoginFailed)
        case Ok(None) => Error(401, InvalidCredentials)
        case Ok(Some(a)) =>
          match svc.checkPassword(password, a.passwordHash)
          case Err(_) => Error(500, LoginFailed)
          case Ok(valid) =>
            if !valid then Error(401, InvalidCredentials)
            else
              match svc.refreshToken(a.userId)
              case Err(_) => Error(500, LoginFailed)
              case Ok(refresh) => Response(200, Session(LoggedIn, a, svc, refresh))
  }

  /** An unknown user name and a wrong password get the very same answer, so
      the response does not tell which of the two was wrong. */
  lemma LoginHidesWhichCredentialFailed(body: Body, unknown: Accounts, known: Accounts, a: Account)
    requires StrippedField(body, "username", "").Ok?
    requires var u := StrippedField(body, "username", "").value;
      && unknown.byUsername(u) == Ok(None)
      && known.byUsername(u) == Ok(Some(a))
      && known.checkPassword(Get(body, "password", JStr("")), a.passwordHash) == Ok(false)
    ensures Login(body, unknown) == Login(body, known)
    ensures Login(body, unknown) == Error(401, InvalidCredentials) || Login(body, unknown) == Error(400, LoginFieldsRequired)
  {
  }

  /** The four answers of login. It is 400 exactly when the user name is
      blank or the password is falsy; 401 "Invalid credentials" exactly when
      the user is unknown or the password check fails; 200 exactly when the
      user exists, the password check passes and the refresh token is
      issued. A 500 never passes on an exception's own message. */
  lemma LoginOutcomes(body: Body, svc: Accounts)
    ensures var r := Login(body, svc);
      r.status == 200 <==>
        && StrippedField(body, "username", "").Ok?
        && StrippedField(body, "username", "").value != ""
        && Truthy(Get(body, "password", JStr("")))
        && exists a: Account :: svc.byUsername(StrippedField(body, "username", "").value) == Ok(Some(a))
             && svc.checkPassword(Get(body, "password", JStr("")), a.passwordHash) == Ok(true)
             && svc.refreshToken(a.userId).Ok?
    ensures Login(body, svc) == Error(400, LoginFieldsRequired) <==>
      StrippedField(body, "username", "").Ok?
      && (StrippedField(body, "username", "").value == "" || !Truthy(Get(body, "password", JStr(""))))
    ensures var u := StrippedField(body, "username", "");
      var pw := Get(body, "password", JStr(""));
      Login(body, svc).status == 401 <==>
        && u.Ok? && u.value != "" && Truthy(pw)
        && (|| svc.byUsername(u.value) == Ok(None)
            || exists a: Account :: svc.byUsername(u.value) == Ok(Some(a))
                 && svc.checkPassword(pw, a.passwordHash) == Ok(false))
    ensures Login(body, svc).status == 401 ==> Login(body, svc) == Error(401, InvalidCredentials)
    ensures Login(body, svc).status == 400 ==> Login(body, svc) == Error(400, LoginFieldsRequired)
    ensures Login(body, svc).status == 500 ==> Login(body, svc) == Error(500, LoginFailed)
    ensures Login(body, svc).status in {200, 400, 401, 500}
    ensures Login(body, svc).status != 200 ==> Login(body, svc).body.ErrorBody?
  {
  }

  // ------------------------------------------------------------------
  // generate_description
  // ------------------------------------------------------------------

  /** The five fields, each defaulting to the empty text except the
      language, which defaults to English, and each stripped. */
  const ProductKeys: seq<(string, string)> := [
    ("product_name", ""), ("product_category", ""), ("target_audience", ""),
    ("user_description", ""), ("target_language", "English")]

  function ProductFieldsOf(body: Body): Result<ProductFields, string> {
    match StrippedFields(body, ProductKeys)
    case Err(m) => Err(m)
    case Ok(v) => Ok(ProductFields(v[0], v[1], v[2], v[3], v[4]))
  }

  /** The images handed to the service: the `images` list when it is a
      non-empty list, else the single `image` when it is truthy, else none. */
  function ImageList(body: Body): seq<Json> {
    var imageData := Get(body, "image", JStr(""));
    var imagesData := Get(body, "images", JList([]));
    if Truthy(imagesData) && imagesData.JList? && |imagesData.items| > 0 then imagesData.items
    else if Truthy(imageData) then [imageData]
    else []
  }

  /** The three ways the image list is chosen: a non-empty `images` list wins
      over `image`, and any `images` value that is not a non-empty list is
      ignored. */
  lemma ImageListSelection(body: Body)
    ensures "images" in body && body["images"].JList? && body["images"].items != [] ==>
      ImageList(body) == body["images"].items
    ensures !("images" in body && body["images"].JList? && body["images"].items != []) ==>
      ImageList(body) == if "image" in body && Truthy(body["image"]) then [body["image"]] else []
  {
  }

  function GenerateEndpoint(body: Body, model: Model, decode: Decoder): Response {
    match ProductFieldsOf(body)
    case Err(m) => Error(500, m)
    case Ok(f) =>
      match GenerateProductDescription(f, ImageList(body), model, decode)
      case Ok(text) => Response(200, DescriptionBody(text))
      case Err(e) => FailureResponse(e)
  }

  /** Without a `target_language` the language is English, and the prompt
      asks for no other language. */
  lemma AbsentLanguageMeansEnglish(body: Body)
    requires "target_language" !in body
    requires ProductFieldsOf(body).Ok?
    ensures ProductFieldsOf(body).value.targetLanguage == "English"
    ensures LanguageClause(ProductFieldsOf(body).value.targetLanguage) == ""
  {
    var fields := StrippedFields(body, ProductKeys);
    assert StrippedField(body, ProductKeys[4].0, ProductKeys[4].1) == Ok(fields.value[4]);
    StripKeepsTrimmed("English");
    EnglishInAnyCaseHasNoClause("English");
  }

  /** With well-formed fields the handler answers 400 exactly when more than
      five images are sent; a successful answer carries a non-empty text. */
  lemma GenerateStatus(body: Body, model: Model, decode: Decoder)
    requires ProductFieldsOf(body).Ok?
    ensures GenerateEndpoint(body, model, decode).status == 400 <==> |ImageList(body)| > 5
    ensures GenerateEndpoint(body, model, decode).status == 200 ==>
      GenerateEndpoint(body, model, decode).body.DescriptionBody?
      && GenerateEndpoint(body, model, decode).body.description != ""
  {
    var f := ProductFieldsOf(body).value;
    ValueErrorIffTooManyImages(f, ImageList(body), model, decode);
    if GenerateProductDescription(f, ImageList(body), model, decode).Ok? {
      GeneratedTextIsModelText(f, ImageList(body), model, decode);
    }
  }

  // ------------------------------------------------------------------
  // The history routes
  // ------------------------------------------------------------------

  const SaveFieldsRequired := "Product name and description " + "are required"
  const UpdatedMessage := "Generation updated successfully"
  const SavedMessage := "Generation saved successfully"
  const DeletedMessage := "Generation deleted successfully"

  const DraftKeys: seq<(string, string)> := [
    ("product_name", ""), ("product_category", ""), ("target_audience", ""),
    ("user_description", ""), ("target_language", "English"), ("final_description", "")]

  /** The six stripped fields and the image list as sent (default `[]`). */
  function DraftOf(body: Body): Result<Draft, string> {
    match StrippedFields(body, DraftKeys)
    case Err(m) => Err(m)
    case Ok(v) => Ok(Draft(v[0], v[1], v[2], v[3], v[4], v[5], Get(body, "image_urls", JList([]))))
  }

  /** save_generation_endpoint for the user the token names. */
  function SaveEndpoint(rows: seq<Row>, user: string, body: Body, freshId: string, now: int): Handled {
    match DraftOf(body)
    case Err(m) => Handled(Error(500, m), rows)
    case Ok(d) =>
      if d.productName == "" || d.finalDescription == "" then Handled(Error(400, SaveFieldsRequired), rows)
      else
        var s := SaveRows(rows, user, d, freshId, now);
        var message := if s.result.updated then UpdatedMessage else SavedMessage;
        Handled(Response(if s.result.updated then 200 else 201, SavedBody(message, s.result.id, s.result.updated)), s.rows)
  }

  /** A save is refused with 400, leaving the table alone, exactly when the
      trimmed product name or description is empty; otherwise it answers 200
      when the user already had an active generation for that product and
      201 when a new one was created. */
  lemma SaveEndpointStatus(rows: seq<Row>, user: string, body: Body, freshId: string, now: int)
    requires DraftOf(body).Ok?
    ensures var d := DraftOf(body).value;
      var h := SaveEndpoint(rows, user, body, freshId, now);
      var hasActive := exists i :: 0 <= i < |rows| && ActiveNamed(rows[i], user, d.productName);
      && (h.response.status == 400 <==> d.productName == "" || d.finalDescription == "")
      && (h.response.status == 400 ==> h.rows == rows)
      && (h.response.status == 200 <==> d.productName != "" && d.finalDescription != "" && hasActive)
      && (h.response.status == 201 <==> d.productName != "" && d.finalDescription != "" && !hasActive)
      && (h.response.status == 400 ==> h.response == Error(400, SaveFieldsRequired))
    ensures var s := SaveRows(rows, user, DraftOf(body).value, freshId, now);
      var h := SaveEndpoint(rows, user, body, freshId, now);
      h.response.status != 400 ==>
        && h.response.body == SavedBody(if s.result.updated then UpdatedMessage else SavedMessage, s.result.id, s.result.updated)
        && h.rows == s.rows
  {
    var d := DraftOf(body).value;
    SaveUpdatesIffActiveExists(rows, user, d, freshId, now);
  }

  /** A save through the handler keeps the table invariant. */
  lemma SaveEndpointKeepsInvariant(rows: seq<Row>, user: string, body: Body, freshId: string, now: int)
    requires TableInvariant(rows) && Unused(rows, freshId)
    ensures TableInvariant(SaveEndpoint(rows, user, body, freshId, now).rows)
  {
    if DraftOf(body).Ok? {
      SaveKeepsInvariant(rows, user, DraftOf(body).value, freshId, now);
    }
  }

  /** delete_generation_endpoint: the not-found ValueError becomes a 404. */
  function DeleteEndpoint(rows: seq<Row>, user: string, id: string, now: int): Handled {
    match DeleteRows(rows, user, id, now)
    case Ok(after) => Handled(Response(200, MessageBody(DeletedMessage)), after)
    case Err(m) => Handled(Error(404, m), rows)
  }

  /** A delete answers 404 and changes nothing exactly when the user has no
      active generation with that id; after a 200 the generation is gone
      from the user's listing. */
  lemma DeleteEndpointStatus(rows: seq<Row>, user: string, id: string, now: int)
    ensures var h := DeleteEndpoint(rows, user, id, now);
      && (h.response.status == 404 <==> forall i :: 0 <= i < |rows| ==> !ActiveWithId(rows[i], user, id))
      && (h.response.status == 404 ==> h.rows == rows && h.response == Error(404, NotFoundMessage))
      && (h.response.status == 200 ==> forall x :: x in Query(h.rows, user) ==> x.id != id)
  {
    DeleteFailsIffNoActiveOwned(rows, user, id, now);
    var h := DeleteEndpoint(rows, user, id, now);
    if h.response.status == 200 {
      QueryListsOwnActiveRows(h.rows, user);
      forall x | x in Query(h.rows, user)
        ensures x.id != id
      {
        var i :| 0 <= i < |h.rows| && h.rows[i] == x;
      }
    }
  }

  /** get_generations for the user the token names. */
  function GenerationsEndpoint(rows: seq<Row>, user: string): Response {
    var listed := Query(rows, user);
    Response(200, GenerationsBody(seq(|listed|, i requires 0 <= i < |listed| => ToEntry(listed[i]))))
  }

  /** The listing answers 200 with at most fifty entries, each for an
      active generation of the user, in the order of the query. */
  lemma GenerationsListOwnActive(rows: seq<Row>, user: string)
    ensures var r := GenerationsEndpoint(rows, user);
      && r.status == 200 && r.body.GenerationsBody?
      && |r.body.generations| <= PageLimit
      && forall e :: e in r.body.generations ==>
           exists x :: x in rows && x.userId == user && x.dataStatus == Active && ToEntry(x) == e
  {
    var listed := Query(rows, user);
    QueryListsOwnActiveRows(rows, user);
    var r := GenerationsEndpoint(rows, user);
    forall e | e in r.body.generations
      ensures exists x :: x in rows && x.userId == user && x.dataStatus == Active && ToEntry(x) == e
    {
      var i :| 0 <= i < |listed| && r.body.generations[i] == e;
      assert listed[i] in listed;
    }
  }

  /** The history routes behind the bearer check. */
  function SaveRequest(header: Option<string>, verify: Verifier, rows: seq<Row>, body: Body, freshId: string, now: int): Handled {
    match Authorize(header, verify)
    case Err(resp) => Handled(resp, rows)
    case Ok(claims) => SaveEndpoint(rows, claims.userId, body, freshId, now)
  }

  function DeleteRequest(header: Option<string>, verify: Verifier, rows: seq<Row>, id: string, now: int): Handled {
    match Authorize(header, verify)
    case Err(resp) => Handled(resp, rows)
    case Ok(claims) => DeleteEndpoint(rows, claims.userId, id, now)
  }

  function GenerationsRequest(header: Option<string>, verify: Verifier, rows: seq<Row>): Response {
    match Authorize(header, verify)
    case Err(resp) => resp
    case Ok(claims) => GenerationsEndpoint(rows, claims.userId)
  }

  /** A request the bearer check turns away is answered with 401 and leaves
      the table as it was; an accepted one is handled for the user the token
      names. */
  lemma UnauthorizedRequestsChangeNothing(header: Option<string>, verify: Verifier, rows: seq<Row>,
                                          body: Body, id: string, freshId: string, now: int)
    requires Authorize(header, verify).Err?
    ensures SaveRequest(header, verify, rows, body, freshId, now).rows == rows
    ensures SaveRequest(header, verify, rows, body, freshId, now).response.status == 401
    ensures DeleteRequest(header, verify, rows, id, now).rows == rows
    ensures DeleteRequest(header, verify, rows, id, now).response.status == 401
    ensures GenerationsRequest(header, verify, rows).status == 401
  {
    AuthorizeCases(header, verify);
  }

  // ------------------------------------------------------------------
  // translate_description_endpoint
  // ------------------------------------------------------------------

  function TranslateEndpoint(body: Body, model: Model): Response {
    match StrippedField(body, "description", "")
    case Err(m) => Error(500, m)
    case Ok(description) =>
      var langs := Get(body, "languages", JList([]));
      if description == "" then Error(400, DescriptionRequired)
      else if !Truthy(langs) || !langs.JList? || |langs.items| == 0 then Error(400, LanguagesRequired)
      else if |langs.items| > 3 then Error(400, TooManyLanguages)
      else
        match Translate(description, langs.items, model)
        case Ok(translations) => Response(200, TranslationsBody(translations))
        case Err(e) => FailureResponse(e)
  }

  /** With a string description, the handler answers 400 exactly when one of
      its own three checks fails, and the list length is counted before any
      entry is trimmed: four entries are refused even if three are blank. */
  lemma TranslateEndpointBadRequest(body: Body, model: Model)
    requires StrippedField(body, "description", "").Ok?
    ensures var description := StrippedField(body, "description", "").value;
      var langs := Get(body, "languages", JList([]));
      var r := TranslateEndpoint(body, model);
      && (r.status == 400 <==> description == "" || !langs.JList? || langs.items == [] || |langs.items| > 3)
      && (description == "" ==> r == Error(400, DescriptionRequired))
      && (description != "" && (!langs.JList? || langs.items == []) ==> r == Error(400, LanguagesRequired))
      && (description != "" && langs.JList? && |langs.items| > 3 ==> r == Error(400, TooManyLanguages))
  {
    var description := StrippedField(body, "description", "").value;
    var langs := Get(body, "languages", JList([]));
    if description != "" && langs.JList? && 0 < |langs.items| <= 3 {
      TranslateValueErrorIffGuard(description, langs.items, model);
    }
  }

  /** A 200 answer holds one translation per requested language, at most
      three, keyed by the trimmed non-empty names, with no empty text. */
  lemma TranslateEndpointResult(body: Body, model: Model)
    requires TranslateEndpoint(body, model).status == 200
    ensures var r := TranslateEndpoint(body, model);
      var langs := Get(body, "languages", JList([]));
      && r.body.TranslationsBody?
      && langs.JList?
      && r.body.translations.Keys == RequestedLanguages(langs.items)
      && |r.body.translations.Keys| <= 3
      && forall k :: k in r.body.translations ==> k != "" && r.body.translations[k] != ""
  {
    var description := StrippedField(body, "description", "").value;
    var langs := Get(body, "languages", JList([]));
    TranslationKeysAndValues(description, langs.items, model);
  }
}
