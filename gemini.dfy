/** The generation service (backend/gemini_service.py): how a prompt is put
    together from the product fields, the guards in front of the generative
    model, the choice between the text-only and the image path, the
    translation loop, and the mapping of raw failures to friendly messages.

    The model itself is a parameter: a total function from what is sent to
    it to what comes back, where a reply is either a text (empty when the
    response carries none) or the message of the exception the call raised.
    Decoding an image (base64 and the imaging library) is a parameter too: it
    names the message of the exception it raises, or nothing. */
module Gemini {
  import opened Wrappers
  import opened Text
  import opened Json

  // ------------------------------------------------------------------
  // The model, its replies, and the exceptions leaving the service
  // ------------------------------------------------------------------

  datatype ModelInput =
    | TextPrompt(prompt: string)
    | ImagePrompt(instruction: string, prompt: string, images: seq<Json>)

  datatype Reply = Answer(text: string) | Failed(message: string)

  type Model = ModelInput -> Reply

  /** What decoding an image payload raises, if anything. */
  type Decoder = Json -> Option<string>

  /** An exception raised by the service: a ValueError raised by a guard, or
      the plain Exception the friendly-error mapper raises for a raw failure
      message (its text is `FriendlyMessage(raw)`). */
  datatype Failure = ValueError(message: string) | Mapped(raw: string)

  // ------------------------------------------------------------------
  // Prompt assembly (build_prompt)
  // ------------------------------------------------------------------

  datatype ProductFields = ProductFields(
    productName: string,
    productCategory: string,
    targetAudience: string,
    userDescription: string,
    targetLanguage: string)

  /** The four fields that may contribute a labelled part to the prompt. */
  datatype Field = Name | Category | Audience | Description

  const FieldOrder: seq<Field> := [Name, Category, Audience, Description]

  function Rank(k: Field): nat {
    match k
    case Name => 0
    case Category => 1
    case Audience => 2
    case Description => 3
  }

  function Label(k: Field): string {
    match k
    case Name => "Product Name: "
    case Category => "Category: "
    case Audience => "Target Audience: "
    case Description => "Description: "
  }

  function ValueOf(f: ProductFields, k: Field): string {
    match k
    case Name => f.productName
    case Category => f.productCategory
    case Audience => f.targetAudience
    case Description => f.userDescription
  }

  predicate StrictlyRanked(ks: seq<Field>) {
    forall i, j :: 0 <= i < j < |ks| ==> Rank(ks[i]) < Rank(ks[j])
  }

  /** The fields of `ks`, in their order, whose value is not empty: the
      reference the parts list is checked against. */
  function NonEmptyFields(f: ProductFields, ks: seq<Field>): (r: seq<Field>)
    ensures forall k :: k in r <==> k in ks && ValueOf(f, k) != ""
    ensures StrictlyRanked(ks) ==> StrictlyRanked(r)
    ensures |r| <= |ks|
  {
    if ks == [] then []
    else
      var rest := NonEmptyFields(f, ks[1..]);
      assert forall k :: k in ks <==> k == ks[0] || k in ks[1..];
      if ValueOf(f, ks[0]) != "" then
        assert StrictlyRanked(ks) ==> forall k :: k in ks[1..] ==> Rank(ks[0]) < Rank(k);
        [ks[0]] + rest
      else rest
  }

  /** The labelled parts the fields of `ks` contribute, in their order. */
  function PartsOf(f: ProductFields, ks: seq<Field>): seq<string>
    decreases |ks|
  {
    if ks == [] then []
    else
      var k := ks[0];
      (if ValueOf(f, k) != "" then [Label(k) + ValueOf(f, k)] else []) + PartsOf(f, ks[1..])
  }

  /** The labelled parts of the prompt, over the fixed field order. */
  function Parts(f: ProductFields): seq<string> {
    PartsOf(f, FieldOrder)
  }

  /** Part i is the labelled value of the i-th field with a non-empty value. */
  lemma {:induction false} PartsFollowNonEmptyFields(f: ProductFields, ks: seq<Field>)
    ensures var present := NonEmptyFields(f, ks);
      && |PartsOf(f, ks)| == |present|
      && forall i :: 0 <= i < |present| ==> PartsOf(f, ks)[i] == Label(present[i]) + ValueOf(f, present[i])
    decreases |ks|
  {
    if ks != [] {
      PartsFollowNonEmptyFields(f, ks[1..]);
    }
  }

  /** The sentence asking for a language other than English, or nothing. */
  function LanguageClause(lang: string): (r: string)
    ensures r != "" <==> lang != "" && Lower(lang) != "english"
    ensures r != "" ==> r == "Provide the response in " + lang + "."
  {
    if lang != "" && Lower(lang) != "english" then "Provide the response in " + lang + "." else ""
  }

  // The long texts of the service are written as concatenations of short
  // literals. The concatenation is the text itself; the pieces only keep
  // the verifier's reasoning about these constants cheap.
  const SystemInstruction: string :=
    "You are an expert marketing " + "assistant. Create well-crafted, " + "clean, and "
    + "professional product " + "descriptions that are focused " + "and concise but comprehensive. "
    + "Provide the content in clean " + "paragraphs without markdown " + "syntax (no # headers, "
    + "no * bullet points). Use plain " + "text formatting with clear line " + "breaks between "
    + "sections. Avoid generic phrases " + "and focus on the specific " + "product details provided."

  const ClosingInstruction: string :=
    "Include brand name, product " + "category, target audience, key " + "features, benefits, and "
    + "usage instructions if " + "mentioned. Keep it concise but " + "comprehensive."

  const InformationLead := " Based on this information: "

  /** The prompt text for a set of product fields. */
  function PromptText(f: ProductFields): string {
    SystemInstruction + " " + LanguageClause(f.targetLanguage) + InformationLead
    + Join(Parts(f), " | ") + ". " + ClosingInstruction
  }

  /** build_prompt: the parts list is filled one field at a time. */
  method BuildPrompt(f: ProductFields) returns (prompt: string)
    ensures prompt == PromptText(f)
  {
    var parts: seq<string> := [];
    if f.productName != "" {
      parts := parts + ["Product Name: " + f.productName];
    }
    if f.productCategory != "" {
      parts := parts + ["Category: " + f.productCategory];
    }
    if f.targetAudience != "" {
      parts := parts + ["Target Audience: " + f.targetAudience];
    }
    if f.userDescription != "" {
      parts := parts + ["Description: " + f.userDescription];
    }
    PartsUnfold(f);
    assert parts == Parts(f);
    var textInput := if |parts| > 0 then Join(parts, " | ") else "";
    var languageInstruction := LanguageClause(f.targetLanguage);
    prompt := SystemInstruction + " " + languageInstruction + InformationLead
      + textInput + ". " + ClosingInstruction;
  }

  /** The four-way unfolding of `Parts`, one field at a time. */
  lemma PartsUnfold(f: ProductFields)
    ensures Parts(f) ==
      (if f.productName != "" then ["Product Name: " + f.productName] else [])
      + (if f.productCategory != "" then ["Category: " + f.productCategory] else [])
      + (if f.targetAudience != "" then ["Target Audience: " + f.targetAudience] else [])
      + (if f.userDescription != "" then ["Description: " + f.userDescription] else [])
  {
    var ks := FieldOrder;
    assert ks[0] == Name && ks[1..] == [Category, Audience, Description];
    assert ks[1..][1..] == [Audience, Description];
    assert ks[1..][1..][1..] == [Description];
    assert ks[1..][1..][1..][1..] == [];
    assert PartsOf(f, [Description]) == (if f.userDescription != "" then ["Description: " + f.userDescription] else []) + PartsOf(f, []);
  }

  /** The parts follow the fixed field order: part i is the labelled value of
      the i-th non-empty field, and the fields behind them are strictly
      increasing in that order. */
  lemma PartsInFieldOrder(f: ProductFields)
    ensures var present := NonEmptyFields(f, FieldOrder);
      && |Parts(f)| == |present|
      && StrictlyRanked(present)
      && forall i :: 0 <= i < |present| ==> Parts(f)[i] == Label(present[i]) + ValueOf(f, present[i])
  {
    assert StrictlyRanked(FieldOrder);
    PartsFollowNonEmptyFields(f, FieldOrder);
  }

  /** A labelled value names its field and its value: the four labels start
      with four different letters. */
  lemma LabelledValueDetermines(k: Field, a: string, k': Field, b: string)
    requires Label(k) + a == Label(k') + b
    ensures k == k' && a == b
  {
    assert Label(k)[0] == Label(k')[0] by {
      assert (Label(k) + a)[0] == Label(k)[0];
      assert (Label(k') + b)[0] == Label(k')[0];
    }
    assert k == k';
    assert (Label(k) + a)[|Label(k)|..] == a;
    assert (Label(k') + b)[|Label(k')|..] == b;
  }

  /** A labelled part is in the prompt's parts exactly when that field is
      non-empty and holds that value: empty fields leave no label behind. */
  lemma PartPresentIffFieldSet(f: ProductFields, k: Field, v: string)
    ensures Label(k) + v in Parts(f) <==> v != "" && v == ValueOf(f, k)
  {
    var present := NonEmptyFields(f, FieldOrder);
    var ps := Parts(f);
    PartsInFieldOrder(f);
    if Label(k) + v in ps {
      var i :| 0 <= i < |ps| && ps[i] == Label(k) + v;
      LabelledValueDetermines(present[i], ValueOf(f, present[i]), k, v);
      assert present[i] in present;
    }
    if v != "" && v == ValueOf(f, k) {
      assert k in FieldOrder;
      assert k in present;
      var i :| 0 <= i < |present| && present[i] == k;
      assert ps[i] == Label(k) + v;
    }
  }

  /** The information part of the prompt is empty exactly when all four
      fields are empty. */
  lemma TextInputEmptyIffNoFields(f: ProductFields)
    ensures Join(Parts(f), " | ") == "" <==>
      f.productName == "" && f.productCategory == "" && f.targetAudience == "" && f.userDescription == ""
  {
    PartsUnfold(f);
    var ps := Parts(f);
    if |ps| >= 2 {
      assert |Join(ps, " | ")| >= |" | "|;
    }
  }

  /** English in any letter case asks for no language clause. */
  lemma EnglishInAnyCaseHasNoClause(lang: string)
    requires |lang| == 7 && forall i :: 0 <= i < 7 ==> LowerChar(lang[i]) == "english"[i]
    ensures LanguageClause(lang) == ""
  {
    assert Lower(lang) == "english";
  }

  // ------------------------------------------------------------------
  // Language instruction (_lang_instruction)
  // ------------------------------------------------------------------

  /** `(lang or "English").strip()`: the fallback applies before trimming, so
      a blank but non-empty argument yields an empty name. */
  function InstructionLanguage(lang: Option<string>): (r: string)
    ensures lang.None? || lang == Some("") ==> r == "English"
    ensures lang.Some? && lang.value != "" ==> r == Strip(lang.value)
    ensures r == [] || (!IsSpace(r[0]) && !IsSpace(r[|r| - 1]))
  {
    var chosen := if lang.None? || lang.value == "" then "English" else lang.value;
    StripKeepsTrimmed("English");
    Strip(chosen)
  }

  const RespondIn := "You are an assistant that must " + "respond in "
  const WriteIn := ". Write naturally and correctly in "
  const NoSwitch := ". Do not switch languages."

  function LangInstruction(lang: Option<string>): string {
    var name := InstructionLanguage(lang);
    RespondIn + name + WriteIn + name + NoSwitch
  }

  /** A whitespace-only language name is not replaced by the fallback. */
  lemma BlankLanguageGivesEmptyName(lang: string)
    requires lang != "" && AllSpace(lang)
    ensures InstructionLanguage(Some(lang)) == ""
  {
    StripEmptyIffAllSpace(lang);
  }

  // ------------------------------------------------------------------
  // Error mapping (_raise_friendly_gemini_error)
  // ------------------------------------------------------------------

  datatype Category = Unavailable | QuotaExceeded | InvalidKey | CertificateFailure | Unclassified

  /** The category a raw exception message falls in; the first test that
      matches decides. */
  function Classify(msg: string): Category {
    var folded := Lower(msg);
    if Contains(msg, "500") || Contains(folded, "internal error") then Unavailable
    else if Contains(msg, "429") || Contains(folded, "quota") then QuotaExceeded
    else if Contains(msg, "401") || Contains(msg, "403") || Contains(folded, "invalid") then InvalidKey
    else if Contains(msg, "CERTIFICATE_VERIFY_FAILED") || Contains(folded, "certificate") then CertificateFailure
    else Unclassified
  }

  const UnavailableMessage := "AI service is temporarily " + "unavailable. Please try again " + "in a moment."
  const QuotaMessage := "API quota exceeded. Please try " + "again later."
  const InvalidKeyMessage := "API key is invalid or expired. " + "Please check your configuration."
  const CertificateMessage :=
    "TLS certificate verification " + "failed. If you are behind a " + "proxy, ensure system CA " + "certificates are installed, "
    + "or run Python with certifi. In " + "many setups, the official " + "google SDK works out-of-the-box."
  const GenericPrefix := "Failed to generate description: "

  function FriendlyMessage(msg: string): string {
    match Classify(msg)
    case Unavailable => UnavailableMessage
    case QuotaExceeded => QuotaMessage
    case InvalidKey => InvalidKeyMessage
    case CertificateFailure => CertificateMessage
    case Unclassified => GenericPrefix + msg
  }

  /** The text of a failure, as `str(e)` gives it to the endpoints. */
  function FailureMessage(e: Failure): string {
    match e
    case ValueError(m) => m
    case Mapped(raw) => FriendlyMessage(raw)
  }

  /** An independent statement of the priority order: a list of rules, each
      with the texts searched as written and the texts searched in the
      lower-cased message, tried from the first. */
  datatype Rule = Rule(category: Category, exact: seq<string>, folded: seq<string>)

  const PriorityRules: seq<Rule> := [
    Rule(Unavailable, ["500"], ["internal error"]),
    Rule(QuotaExceeded, ["429"], ["quota"]),
    Rule(InvalidKey, ["401", "403"], ["invalid"]),
    Rule(CertificateFailure, ["CERTIFICATE_VERIFY_FAILED"], ["certificate"])
  ]

  predicate ContainsAny(s: string, needles: seq<string>)
    decreases |needles|
  {
    needles != [] && (Contains(s, needles[0]) || ContainsAny(s, needles[1..]))
  }

  predicate RuleMatches(rule: Rule, msg: string) {
    ContainsAny(msg, rule.exact) || ContainsAny(Lower(msg), rule.folded)
  }

  function FirstMatch(rules: seq<Rule>, msg: string): Category
    decreases |rules|
  {
    if rules == [] then Unclassified
    else if RuleMatches(rules[0], msg) then rules[0].category
    else FirstMatch(rules[1..], msg)
  }

  /** The classifier is the first matching rule of the priority list. */
  lemma ClassifyFollowsPriority(msg: string)
    ensures Classify(msg) == FirstMatch(PriorityRules, msg)
  {
    var rs := PriorityRules;
    assert rs[1..][1..][1..][1..] == [];
    assert ContainsAny(msg, ["401", "403"]) == (Contains(msg, "401") || Contains(msg, "403")) by {
      assert ["401", "403"][1..] == ["403"];
      assert ["403"][1..] == [];
    }
  }

  /** Only an unclassified message is passed through, after the generic
      prefix; every recognised category replaces the message entirely. */
  lemma GenericMessageIffUnclassified(msg: string)
    ensures FriendlyMessage(msg) == GenericPrefix + msg <==> Classify(msg) == Unclassified
  {
    var g := GenericPrefix + msg;
    assert g[0] == 'F';
    assert UnavailableMessage[0] == 'A' && QuotaMessage[0] == 'A' && InvalidKeyMessage[0] == 'A';
    assert CertificateMessage[0] == 'T';
  }

  /** The exact-case certificate test never decides anything: whenever it
      matches, the lower-cased test matches as well. */
  lemma CertificateExactTestSubsumed(msg: string)
    requires Contains(msg, "CERTIFICATE_VERIFY_FAILED")
    ensures Contains(Lower(msg), "certificate")
  {
    ContainsLower(msg, "CERTIFICATE_VERIFY_FAILED");
    var low := Lower("CERTIFICATE_VERIFY_FAILED");
    assert low == "certificate_verify_failed";
    assert StartsWith(low, "certificate");
    ContainsTransitive(Lower(msg), low, "certificate");
  }

  // ------------------------------------------------------------------
  // Images (_load_image_from_base64, lines 79-81, and the loading loop)
  // ------------------------------------------------------------------

  /** An image argument after the data-URL prefix split: the declared MIME
      type, if any, and the payload handed to the decoder. */
  datatype ImageSource = ImageSource(mime: Option<string>, payload: Json)

  const IndexErrorMessage := "list index out of range"

  /** A string starting with `data:image` is split into its MIME type and the
      text after the first comma; Python's indexing raises an IndexError when
      a field is missing. Anything else is the payload as it stands. */
  function SplitDataUrl(item: Json): Result<ImageSource, string> {
    if item.JStr? && StartsWith(item.s, "data:image") then
      var scheme := Split(Split(item.s, ';')[0], ':');
      var fields := Split(item.s, ',');
      if |scheme| < 2 || |fields| < 2 then Err(IndexErrorMessage)
      else Ok(ImageSource(Some(scheme[1]), JStr(fields[1])))
    else Ok(ImageSource(None, item))
  }

  /** The data URL the client sends: `data:image/<subtype>;base64,<payload>`. */
  function DataUrl(subtype: string, payload: string): string {
    "data:image/" + subtype + ";base64," + payload
  }

  /** The first `;`-field of a data URL is its scheme and MIME type. */
  lemma DataUrlHead(subtype: string, payload: string)
    requires ';' !in subtype
    ensures Split(DataUrl(subtype, payload), ';')[0] == "data:image/" + subtype
  {
    var head := "data:image/" + subtype;
    var tail := ";base64," + payload;
    assert DataUrl(subtype, payload) == head + tail;
    assert ';' !in head;
    SplitPrefix(head, tail, ';');
    assert tail[0] == ';' && tail[1..] == "base64," + payload;
    assert Split(tail, ';')[0] == "";
    assert head + "" == head;
  }

  /** The scheme splits at its one `:` into `data` and the MIME type. */
  lemma DataUrlScheme(subtype: string)
    requires ':' !in subtype
    ensures Split("data:image/" + subtype, ':') == ["data", "image/" + subtype]
  {
    assert "data:image/" + subtype == Join(["data", "image/" + subtype], [':']);
    SplitJoin(["data", "image/" + subtype], ':');
  }

  /** A data URL splits at its one `,` into the header and the payload. */
  lemma DataUrlFields(subtype: string, payload: string)
    requires ',' !in subtype && ',' !in payload
    ensures Split(DataUrl(subtype, payload), ',') == ["data:image/" + subtype + ";base64", payload]
  {
    var front := "data:image/" + subtype + ";base64";
    assert ',' !in front;
    assert DataUrl(subtype, payload) == Join([front, payload], [',']);
    SplitJoin([front, payload], ',');
  }

  /** Splitting a well-formed data URL gives back its MIME type and payload. */
  lemma DataUrlRoundTrip(subtype: string, payload: string)
    requires ';' !in subtype && ':' !in subtype && ',' !in subtype
    requires ',' !in payload
    ensures SplitDataUrl(JStr(DataUrl(subtype, payload))) == Ok(ImageSource(Some("image/" + subtype), JStr(payload)))
  {
    var s := DataUrl(subtype, payload);
    assert StartsWith(s, "data:image");
    DataUrlHead(subtype, payload);
    DataUrlScheme(subtype);
    DataUrlFields(subtype, payload);
  }

  /** For a `data:image` string the only split that can fail is the one at
      the comma: it fails exactly when the string has no comma. */
  lemma DataUrlFailsIffNoComma(s: string)
    requires StartsWith(s, "data:image")
    ensures SplitDataUrl(JStr(s)).Err? <==> ',' !in s
  {
    var rest := s[10..];
    assert s == "data:image" + rest;
    SplitPrefix("data:image", rest, ';');
    var head := Split(s, ';')[0];
    assert head[4] == ':';
    SplitSingleField(head, ':');
    SplitSingleField(s, ',');
  }

  /** Loading one image argument: the prefix split, then the decoder. */
  function LoadOne(item: Json, decode: Decoder): Result<Json, string> {
    match SplitDataUrl(item)
    case Err(m) => Err(m)
    case Ok(src) =>
      match decode(src.payload)
      case Some(m) => Err(m)
      case None => Ok(src.payload)
  }

  /** Loading every image in order; the first failure stops the loading. */
  function LoadAll(items: seq<Json>, decode: Decoder): (r: Result<seq<Json>, string>)
    ensures r.Ok? ==> |r.value| == |items| && forall i :: 0 <= i < |items| ==> LoadOne(items[i], decode) == Ok(r.value[i])
    ensures r.Err? ==> exists i :: 0 <= i < |items| && LoadOne(items[i], decode) == Err(r.error)
                                 && (forall j :: 0 <= j < i ==> LoadOne(items[j], decode).Ok?)
    decreases |items|
  {
    if items == [] then Ok([])
    else
      var front := items[..|items| - 1];
      assert forall j :: 0 <= j < |front| ==> front[j] == items[j];
      match LoadAll(front, decode)
      case Err(m) => Err(m)
      case Ok(loaded) =>
        match LoadOne(items[|items| - 1], decode)
        case Err(m) => Err(m)
        case Ok(p) => Ok(loaded + [p])
  }

  /** Once loading a prefix fails, loading the whole list fails the same way. */
  lemma {:induction false} LoadAllFailureSticks(items: seq<Json>, k: nat, decode: Decoder)
    requires k <= |items| && LoadAll(items[..k], decode).Err?
    ensures LoadAll(items, decode) == LoadAll(items[..k], decode)
    decreases |items| - k
  {
    if k < |items| {
      assert items[..k + 1][..k] == items[..k];
      LoadAllFailureSticks(items, k + 1, decode);
    } else {
      assert items[..k] == items;
    }
  }

  /** The loading loop of generate_description_with_images. */
  method LoadImages(items: seq<Json>, decode: Decoder) returns (r: Result<seq<Json>, string>)
    ensures r == LoadAll(items, decode)
  {
    var loaded: seq<Json> := [];
    var i := 0;
    while i < |items|
      invariant 0 <= i <= |items|
      invariant LoadAll(items[..i], decode) == Ok(loaded)
    {
      var one := LoadOne(items[i], decode);
      assert items[..i + 1][..i] == items[..i];
      if one.Err? {
        LoadAllFailureSticks(items, i + 1, decode);
        return Err(one.error);
      }
      loaded := loaded + [one.value];
      i := i + 1;
    }
    assert items[..i] == items;
    r := Ok(loaded);
  }

  // ------------------------------------------------------------------
  // Generation (text-only, with images, and the orchestrator)
  // ------------------------------------------------------------------

  const NoResponseMessage := "No response from AI model. " + "Please try again."

  /** What a reply turns into: its text, or the friendly form of the failure.
      The "no response" ValueError is raised inside the try block, so it
      reaches the caller through the mapper, as a plain Exception. */
  function Answered(reply: Reply): (r: Result<string, Failure>)
    ensures r.Ok? <==> reply.Answer? && reply.text != ""
    ensures r.Ok? ==> r.value == reply.text
    ensures r.Err? ==> r.error.Mapped?
  {
    match reply
    case Failed(m) => Err(Mapped(m))
    case Answer(t) => if t == "" then Err(Mapped(NoResponseMessage)) else Ok(t)
  }

  /** generate_description_text_only. */
  function GenerateTextOnly(prompt: string, model: Model): Result<string, Failure> {
    if prompt == "" then Err(ValueError("Prompt text is required."))
    else Answered(model(TextPrompt(prompt)))
  }

  /** The guards of generate_description_with_images, in their order. */
  function ImageGuard(prompt: string, count: nat): (r: Option<string>)
    ensures r.None? <==> prompt != "" && 1 <= count <= 5
  {
    if prompt == "" then Some("Prompt text is required.")
    else if count == 0 then Some("At least one image is required.")
    else if count > 5 then Some("Maximum 5 images allowed.")
    else None
  }

  /** generate_description_with_images. */
  function GenerateWithImages(prompt: string, images: seq<Json>, model: Model, decode: Decoder): Result<string, Failure> {
    match ImageGuard(prompt, |images|)
    case Some(m) => Err(ValueError(m))
    case None =>
      match LoadAll(images, decode)
      case Err(m) => Err(Mapped(m))
      case Ok(pictures) => Answered(model(ImagePrompt(LangInstruction(Some("English")), prompt, pictures)))
  }

  /** generate_product_description: images present means the image path. */
  function GenerateProductDescription(f: ProductFields, images: seq<Json>, model: Model, decode: Decoder): Result<string, Failure> {
    var prompt := PromptText(f);
    if |images| > 0 then GenerateWithImages(prompt, images, model, decode)
    else GenerateTextOnly(prompt, model)
  }

  /** The guards run before any model call or image decoding: when one
      fails, neither the model nor the decoder can change the outcome. */
  lemma ImageGuardsPrecedeModel(prompt: string, images: seq<Json>, m1: Model, m2: Model, d1: Decoder, d2: Decoder)
    requires ImageGuard(prompt, |images|).Some?
    ensures GenerateWithImages(prompt, images, m1, d1) == GenerateWithImages(prompt, images, m2, d2)
    ensures GenerateWithImages(prompt, images, m1, d1).Err? && GenerateWithImages(prompt, images, m1, d1).error.ValueError?
  {
  }

  /** Without images only the text prompt built from the fields reaches the
      model: two models that agree on it give the same outcome, whatever the
      decoder. */
  lemma NoImagesTakesTextPath(f: ProductFields, m1: Model, m2: Model, d1: Decoder, d2: Decoder)
    requires m1(TextPrompt(PromptText(f))) == m2(TextPrompt(PromptText(f)))
    ensures GenerateProductDescription(f, [], m1, d1) == GenerateProductDescription(f, [], m2, d2)
  {
  }

  /** With images only image prompts reach the model: two models that agree
      on every image prompt give the same outcome, whatever they answer to
      text prompts. */
  lemma ImagesTakeImagePath(f: ProductFields, images: seq<Json>, m1: Model, m2: Model, decode: Decoder)
    requires |images| > 0
    requires forall x: ModelInput :: x.ImagePrompt? ==> m1(x) == m2(x)
    ensures GenerateProductDescription(f, images, m1, decode) == GenerateProductDescription(f, images, m2, decode)
  {
    var prompt := PromptText(f);
    if ImageGuard(prompt, |images|).None? && LoadAll(images, decode).Ok? {
      var x := ImagePrompt(LangInstruction(Some("English")), prompt, LoadAll(images, decode).value);
      assert m1(x) == m2(x);
    }
  }

  /** The prompt is never empty, so the only ValueError the orchestrator can
      raise is the image bound: it raises one exactly when there are more
      than five images. */
  lemma ValueErrorIffTooManyImages(f: ProductFields, images: seq<Json>, model: Model, decode: Decoder)
    ensures var r := GenerateProductDescription(f, images, model, decode);
      (r.Err? && r.error.ValueError?) <==> |images| > 5
    ensures var r := GenerateProductDescription(f, images, model, decode);
      r.Err? && r.error.ValueError? ==> r.error.message == "Maximum 5 images allowed."
  {
    assert |PromptText(f)| > 0;
  }

  /** A successful generation returns the model's own non-empty text. */
  lemma GeneratedTextIsModelText(f: ProductFields, images: seq<Json>, model: Model, decode: Decoder)
    requires GenerateProductDescription(f, images, model, decode).Ok?
    ensures var t := GenerateProductDescription(f, images, model, decode).value;
      t != ""
      && (images == [] ==> model(TextPrompt(PromptText(f))) == Answer(t))
      && (images != [] ==> exists pictures :: model(ImagePrompt(LangInstruction(Some("English")), PromptText(f), pictures)) == Answer(t))
  {
    if images != [] {
      var pictures := LoadAll(images, decode).value;
      assert model(ImagePrompt(LangInstruction(Some("English")), PromptText(f), pictures)).Answer?;
    }
  }

  // ------------------------------------------------------------------
  // Translation (translate_description)
  // ------------------------------------------------------------------

  /** `(lang or "").strip()` on one entry of the language list. */
  function LanguageName(v: Json): (r: Result<string, string>)
    ensures !Truthy(v) ==> r == Ok("")
    ensures v.JStr? ==> r == Ok(Strip(v.s))
    ensures Truthy(v) && !v.JStr? ==> r == Err(NoAttribute(v, "strip"))
  {
    if !Truthy(v) then Ok("")
    else if v.JStr? then Ok(Strip(v.s))
    else Err(NoAttribute(v, "strip"))
  }

  const TranslationTask: string :=
    "Translate the following product " + "description. "
    + "Maintain the same professional " + "tone, structure, and " + "formatting. "
    + "Do not add or remove any " + "information. Just translate the " + "text accurately.\n\n"
    + "Product Description:\n"

  function TranslationPrompt(lang: string, description: string): string {
    LangInstruction(Some(lang)) + "\n\n" + TranslationTask + description + "\n\n"
    + "Translated to " + lang + ":"
  }

  /** What the model replies to the translation prompt for one language. */
  function Ask(model: Model, lang: string, description: string): Reply {
    model(TextPrompt(TranslationPrompt(lang, description)))
  }

  /** Every entry of `m` is the stored form of the model's answer for its
      language. */
  predicate AllAnswered(m: map<string, string>, description: string, model: Model) {
    forall k :: k in m ==> Ask(model, k, description).Answer? && m[k] == TranslatedText(Ask(model, k, description).text, k)
  }

  /** The stored translation: the trimmed reply, or the failure note when
      the trimmed reply is empty. Never empty. */
  function TranslatedText(reply: string, lang: string): (r: string)
    ensures r != ""
    ensures Strip(reply) != "" ==> r == Strip(reply)
    ensures Strip(reply) == "" ==> r == "Translation to " + lang + " failed"
  {
    var t := Strip(reply);
    if t != "" then t else "Translation to " + lang + " failed"
  }

  /** One round of the translation loop. */
  function TranslateStep(description: string, v: Json, acc: map<string, string>, model: Model): Result<map<string, string>, Failure> {
    match LanguageName(v)
    case Err(m) => Err(Mapped(m))
    case Ok(lang) =>
      if lang == "" then Ok(acc)
      else
        match Ask(model, lang, description)
        case Failed(m) => Err(Mapped(m))
        case Answer(t) => Ok(acc[lang := TranslatedText(t, lang)])
  }

  /** The translation loop over a list of entries, as a fold from the left. */
  function TranslateAll(description: string, langs: seq<Json>, model: Model): Result<map<string, string>, Failure>
    decreases |langs|
  {
    if langs == [] then Ok(map[])
    else
      match TranslateAll(description, langs[..|langs| - 1], model)
      case Err(e) => Err(e)
      case Ok(acc) => TranslateStep(description, langs[|langs| - 1], acc, model)
  }

  const DescriptionRequired := "Description is required"
  const LanguagesRequired := "At least one target language " + "is required"
  const TooManyLanguages := "Maximum 3 languages allowed"

  /** translate_description: the three guards, then the loop. */
  function Translate(description: string, langs: seq<Json>, model: Model): Result<map<string, string>, Failure> {
    if description == "" then Err(ValueError(DescriptionRequired))
    else if |langs| == 0 then Err(ValueError(LanguagesRequired))
    else if |langs| > 3 then Err(ValueError(TooManyLanguages))
    else TranslateAll(description, langs, model)
  }

  /** Once the loop fails on a prefix, it fails the same way on the whole list. */
  lemma {:induction false} TranslateFailureSticks(description: string, langs: seq<Json>, k: nat, model: Model)
    requires k <= |langs| && TranslateAll(description, langs[..k], model).Err?
    ensures TranslateAll(description, langs, model) == TranslateAll(description, langs[..k], model)
    decreases |langs| - k
  {
    if k < |langs| {
      assert langs[..k + 1][..k] == langs[..k];
      TranslateFailureSticks(description, langs, k + 1, model);
    } else {
      assert langs[..k] == langs;
    }
  }

  /** translate_description, with its loop filling the dictionary. */
  method TranslateDescription(description: string, langs: seq<Json>, model: Model) returns (r: Result<map<string, string>, Failure>)
    ensures r == Translate(description, langs, model)
  {
    if description == "" {
      return Err(ValueError(DescriptionRequired));
    }
    if |langs| == 0 {
      return Err(ValueError(LanguagesRequired));
    }
    if |langs| > 3 {
      return Err(ValueError(TooManyLanguages));
    }
    var translations: map<string, string> := map[];
    var i := 0;
    while i < |langs|
      invariant 0 <= i <= |langs|
      invariant TranslateAll(description, langs[..i], model) == Ok(translations)
    {
      assert langs[..i + 1][..i] == langs[..i];
      var name := LanguageName(langs[i]);
      if name.Err? {
        TranslateFailureSticks(description, langs, i + 1, model);
        return Err(Mapped(name.error));
      }
      var lang := name.value;
      if lang == "" {
        i := i + 1;
        continue;
      }
      var reply := model(TextPrompt(TranslationPrompt(lang, description)));
      if reply.Failed? {
        TranslateFailureSticks(description, langs, i + 1, model);
        return Err(Mapped(reply.message));
      }
      translations := translations[lang := TranslatedText(reply.text, lang)];
      i := i + 1;
    }
    assert langs[..i] == langs;
    r := Ok(translations);
  }

  /** The non-empty names among a list of name lookups. */
  function NameSet(names: seq<Result<string, string>>): (r: set<string>)
    ensures |r| <= |names|
    ensures forall k :: k in r ==> k != ""
    decreases |names|
  {
    if names == [] then {}
    else
      var front := NameSet(names[..|names| - 1]);
      var last := names[|names| - 1];
      if last.Ok? && last.value != "" then front + {last.value} else front
  }

  /** A name is in the set exactly when some lookup produced it. */
  lemma {:induction false} NameSetMembers(names: seq<Result<string, string>>, k: string)
    ensures k in NameSet(names) <==> k != "" && exists i :: 0 <= i < |names| && names[i] == Ok(k)
    decreases |names|
  {
    if names != [] {
      var front := names[..|names| - 1];
      NameSetMembers(front, k);
      if k in NameSet(front) {
        var i :| 0 <= i < |front| && front[i] == Ok(k);
        assert names[i] == Ok(k);
      }
      if k != "" && exists i :: 0 <= i < |names| && names[i] == Ok(k) {
        var i :| 0 <= i < |names| && names[i] == Ok(k);
        if i < |front| {
          assert front[i] == Ok(k);
        }
      }
    }
  }

  /** The name lookup of every entry of the list. */
  function LanguageNames(langs: seq<Json>): (r: seq<Result<string, string>>)
    ensures |r| == |langs|
    ensures forall i :: 0 <= i < |langs| ==> r[i] == LanguageName(langs[i])
  {
    seq(|langs|, i requires 0 <= i < |langs| => LanguageName(langs[i]))
  }

  /** The languages a list asks for: its entries' trimmed, non-empty names. */
  function RequestedLanguages(langs: seq<Json>): set<string> {
    NameSet(LanguageNames(langs))
  }

  /** Entry `i` of the list trims to the name `k`. */
  predicate NamesAt(langs: seq<Json>, i: int, k: string) {
    0 <= i < |langs| && LanguageName(langs[i]) == Ok(k)
  }

  /** A name is requested exactly when some entry of the list trims to it. */
  lemma RequestedLanguagesMembers(langs: seq<Json>, k: string)
    ensures k in RequestedLanguages(langs) <==> k != "" && exists i :: NamesAt(langs, i, k)
  {
    var names := LanguageNames(langs);
    NameSetMembers(names, k);
    if exists i :: 0 <= i < |names| && names[i] == Ok(k) {
      var i :| 0 <= i < |names| && names[i] == Ok(k);
      assert NamesAt(langs, i, k);
    }
    if exists i :: NamesAt(langs, i, k) {
      var i :| NamesAt(langs, i, k);
      assert names[i] == Ok(k);
    }
  }

  /** The requested languages of a list grow by the name of its last entry. */
  lemma RequestedLanguagesSnoc(langs: seq<Json>)
    requires langs != []
    ensures var name := LanguageName(langs[|langs| - 1]);
      RequestedLanguages(langs) == RequestedLanguages(langs[..|langs| - 1])
        + (if name.Ok? && name.value != "" then {name.value} else {})
  {
    assert LanguageNames(langs)[..|langs| - 1] == LanguageNames(langs[..|langs| - 1]);
  }

  /** What a successful loop produced: one entry per requested language, its
      value being the model's reply for that very language, trimmed, or the
      failure note; every value is non-empty. */
  lemma {:induction false} TranslateAllResult(description: string, langs: seq<Json>, model: Model)
    requires TranslateAll(description, langs, model).Ok?
    ensures var m := TranslateAll(description, langs, model).value;
      m.Keys == RequestedLanguages(langs) && AllAnswered(m, description, model)
    decreases |langs|
  {
    if langs != [] {
      var front := langs[..|langs| - 1];
      var v := langs[|langs| - 1];
      var before := TranslateAll(description, front, model);
      assert before.Ok?;
      TranslateAllResult(description, front, model);
      var acc := before.value;
      var m := TranslateAll(description, langs, model).value;
      assert TranslateStep(description, v, acc, model) == Ok(m);
      var name := LanguageName(v);
      assert name.Ok?;
      RequestedLanguagesSnoc(langs);
      if name.value != "" {
        var reply := Ask(model, name.value, description);
        assert reply.Answer?;
        assert m == acc[name.value := TranslatedText(reply.text, name.value)];
      } else {
        assert m == acc;
      }
    }
  }

  /** translate_description's result holds at most three languages, each
      trimmed and non-empty, and no value is empty. */
  lemma TranslationKeysAndValues(description: string, langs: seq<Json>, model: Model)
    requires Translate(description, langs, model).Ok?
    ensures var m := Translate(description, langs, model).value;
      && m.Keys == RequestedLanguages(langs)
      && |m.Keys| <= 3
      && (forall k :: k in m ==> k != "" && Strip(k) == k)
      && (forall k :: k in m ==> m[k] != "")
  {
    var m := Translate(description, langs, model).value;
    TranslateAllResult(description, langs, model);
    forall k | k in m
      ensures Strip(k) == k
    {
      RequestedLanguagesMembers(langs, k);
      var i :| NamesAt(langs, i, k);
      var v: Json := langs[i];
      StripIdempotent(v.s);
    }
  }

  /** translate_description raises a ValueError exactly when one of its three
      guards fails; everything raised later is a plain Exception. */
  lemma TranslateValueErrorIffGuard(description: string, langs: seq<Json>, model: Model)
    ensures var r := Translate(description, langs, model);
      (r.Err? && r.error.ValueError?) <==> description == "" || |langs| == 0 || |langs| > 3
  {
    if description != "" && 0 < |langs| <= 3 {
      TranslateAllRaisesException(description, langs, model);
    }
  }

  lemma {:induction false} TranslateAllRaisesException(description: string, langs: seq<Json>, model: Model)
    ensures TranslateAll(description, langs, model).Err? ==> TranslateAll(description, langs, model).error.Mapped?
    decreases |langs|
  {
    if langs != [] {
      TranslateAllRaisesException(description, langs[..|langs| - 1], model);
    }
  }

  /** When a guard fails the model is not consulted: no model changes the outcome. */
  lemma TranslateGuardsPrecedeModel(description: string, langs: seq<Json>, m1: Model, m2: Model)
    requires description == "" || |langs| == 0 || |langs| > 3
    ensures Translate(description, langs, m1) == Translate(description, langs, m2)
  {
  }
}
