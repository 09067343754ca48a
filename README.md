# Product description generator backend, modelled in Dafny

The backend is a Flask API. It turns a product's attributes, and optionally
up to five product images, into a marketing description written by a
generative model. It translates a description into at most three languages.
It keeps a per-user history of saved descriptions behind a bearer-token
check. This project models the parts of that backend that decide what
happens to a request:

- `text.dfy` (module `Text`): the Python string operations the handlers rely
  on. These are `str.strip()` over Python's whitespace set, `lower()`,
  `in`, `split` on one character and `join`.
- `json.dfy` (module `Json`): the decoded request body. It covers truthiness,
  `body.get(key, default)`, `.strip()` on whatever value was sent (with the
  AttributeError raised for a non-string) and `len`.
- `gemini.dfy` (module `Gemini`): `backend/gemini_service.py`. It covers prompt
  assembly, the language instruction, the image guards and the data-URL
  split. It also covers dispatch between the text-only and image paths,
  translation, and the mapping of service errors to friendly messages. The
  prompt is also assembled by a step-by-step method, and the image-loading
  and translation loops are methods. Each method is proved equal to its
  specification function.
- `history.dfy` (module `History`): `backend/history.py`. The `generations`
  table is the class `GenerationTable`, whose `Save`, `Delete` and
  `GetUserGenerations` methods are proved against the pure functions
  `SaveRows`, `DeleteRows` and `Query`. Those functions keep the table
  invariant: ids are unique, and each user has at most one active row per
  product name.
- `endpoints.dfy` (module `Endpoints`): the handlers of `backend/main.py`.
  These are the `token_required` check, registration, login, generation,
  save, delete, listing and translation. Each handler is modelled with the
  status code and body it answers for every outcome.

Calls the model cannot see are parameters:

- the generative model, a function from a prompt to a reply;
- the image decoder;
- the token verifier;
- the account store with its password check and token issuers (issuing a
  refresh token stores it, and may fail);
- the clock (`now`);
- the id the database assigns to a new row.

Python's exceptions are `Result` values. `Failure.ValueError` is an
exception the handlers answer with 400. `Failure.Mapped(raw)` is the plain
`Exception` that `_raise_friendly_gemini_error` raises, whose text is
`FriendlyMessage(raw)`.

The model keeps these behaviours of the code as written:

- Every exception raised inside the generation service's `try` blocks
  becomes a plain Exception through the friendly mapper, so the handlers
  answer it with 500. Two of them are ValueErrors that would otherwise get
  a 400: the "no response" error raised when the model returns no text, and
  the `binascii.Error` of a payload that is not valid base64, which is a
  failure of the decoder parameter. The IndexError of a `data:image` string
  without a comma is not a ValueError, so it would get a 500 even without
  the mapper.
- `_lang_instruction` applies its `"English"` fallback before stripping, so a
  whitespace-only language name yields an empty name, not English.
- The translation handler counts the raw language list before any entry is
  trimmed, so four entries are refused even when some of them are blank.

The browser client and its state machine are not part of this model.

## Model

| member | source | states |
|---|---|---|
| Text.TrimStart | backend/main.py:62 | leading-whitespace removal returns no more than its input and never starts with whitespace |
| Text.TrimStartDropsSpace | backend/main.py:62 | the result is a suffix of the input and everything dropped is whitespace |
| Text.TrimEnd | backend/main.py:62 | trailing-whitespace removal returns no more than its input and never ends with whitespace |
| Text.TrimEndDropsSpace | backend/main.py:62 | the result is a prefix of the input and everything dropped is whitespace |
| Text.Strip | backend/main.py:62 | `str.strip()` returns no more than its input, with no whitespace at either end |
| Text.StripSurrounded | backend/main.py:62 | the input is whitespace, then the stripped text, then whitespace |
| Text.StripEmptyIffAllSpace | backend/main.py:62-68 | a field strips to the empty text exactly when it is whitespace only, which the `not username` check then rejects |
| Text.StripKeepsTrimmed | backend/gemini_service.py:106 | a text without whitespace at its ends is left unchanged, so the `"English"` fallback survives the strip |
| Text.StripIdempotent | backend/gemini_service.py:188 | stripping twice is the same as stripping once |
| Text.LowerIdempotent | backend/main.py:63 | a lower-cased text holds no upper-case ASCII letter and keeps its whitespace where it was, so lower-casing again changes nothing |
| Text.ContainsIffOccurs | backend/gemini_service.py:212-218 | `sub in s` holds exactly when `sub` occurs in `s` at some index |
| Text.ContainsInfix | backend/gemini_service.py:212-218 | a text contains anything placed inside it |
| Text.ContainsTransitive | backend/gemini_service.py:212-218 | containment is transitive |
| Text.ContainsLower | backend/gemini_service.py:218 | containment survives lower-casing both sides |
| Text.Split | backend/main.py:32 | `split(c)` yields at least one field and no field holds the separator |
| Text.JoinSplit | backend/main.py:32 | joining the fields with the separator gives back the text |
| Text.SplitPrefix | backend/gemini_service.py:80-81 | a separator-free prefix is glued onto the first field |
| Text.SplitJoin | backend/main.py:32 | splitting joined separator-free fields gives back the fields |
| Text.SplitSingleField | backend/main.py:31-34 | there is exactly one field, the case where `[1]` raises IndexError, exactly when the separator is absent |
| Json.StrippedFieldIsTrimmed | backend/main.py:62-63 | a field read with `.strip()` has no whitespace at either end, so stripping it again changes nothing |
| Gemini.NonEmptyFields | backend/gemini_service.py:40-48 | the selected fields are exactly the listed ones with a non-empty value, in their order |
| Gemini.PartsFollowNonEmptyFields | backend/gemini_service.py:40-48 | the i-th prompt part is the label and value of the i-th non-empty field |
| Gemini.LanguageClause | backend/gemini_service.py:51-55 | the clause is non-empty exactly when the language is non-empty and not "english" in lower case, and it then names the language |
| Gemini.BuildPrompt | backend/gemini_service.py:37-68 | appending the parts one by one yields the prompt of the specification function |
| Gemini.PartsUnfold | backend/gemini_service.py:40-48 | the parts are the four conditional labelled parts, in the order name, category, audience, description |
| Gemini.PartsInFieldOrder | backend/gemini_service.py:40-48 | there is one part per non-empty field, in field order |
| Gemini.LabelledValueDetermines | backend/gemini_service.py:41-48 | a labelled part determines both its field and its value |
| Gemini.PartPresentIffFieldSet | backend/gemini_service.py:41-48 | `Label: v` is a part exactly when `v` is that field's non-empty value |
| Gemini.TextInputEmptyIffNoFields | backend/gemini_service.py:50 | the joined text input is empty exactly when all four fields are empty |
| Gemini.EnglishInAnyCaseHasNoClause | backend/gemini_service.py:53 | "English" in any letter case asks for no language clause |
| Gemini.InstructionLanguage | backend/gemini_service.py:105-106 | an absent or empty language gives "English", anything else is stripped, and the name has no surrounding whitespace |
| Gemini.BlankLanguageGivesEmptyName | backend/gemini_service.py:106 | a whitespace-only language gives an empty name, because the fallback applies before the strip |
| Gemini.ClassifyFollowsPriority | backend/gemini_service.py:210-224 | an error message falls in the first category of the priority list whose tests match |
| Gemini.GenericMessageIffUnclassified | backend/gemini_service.py:223-224 | the generic "Failed to generate description" message appears exactly when no category matched |
| Gemini.CertificateExactTestSubsumed | backend/gemini_service.py:218 | the exact CERTIFICATE_VERIFY_FAILED test is implied by the case-folded "certificate" test |
| Gemini.DataUrlHead | backend/gemini_service.py:80 | the part of a data URL before `;` is `data:image/<subtype>` |
| Gemini.DataUrlScheme | backend/gemini_service.py:80 | splitting that head on `:` gives the scheme and the MIME type |
| Gemini.DataUrlFields | backend/gemini_service.py:81 | splitting a data URL on `,` gives the header and the payload |
| Gemini.DataUrlRoundTrip | backend/gemini_service.py:79-81 | splitting a well-formed data URL recovers its MIME type and its base64 payload |
| Gemini.DataUrlFailsIffNoComma | backend/gemini_service.py:79-81 | a `data:image` string makes the split raise IndexError exactly when it has no comma |
| Gemini.LoadAll | backend/gemini_service.py:140-143 | on success there is one loaded image per item, in order; on failure the error is that of the first failing item |
| Gemini.LoadAllFailureSticks | backend/gemini_service.py:140-143 | once a prefix of the list fails, the whole list fails with the same error |
| Gemini.LoadImages | backend/gemini_service.py:140-143 | the loading loop computes `LoadAll` |
| Gemini.Answered | backend/gemini_service.py:119-125 | a reply is accepted exactly when the model answered with non-empty text, and otherwise becomes a mapped Exception |
| Gemini.ImageGuard | backend/gemini_service.py:132-137 | the image path proceeds exactly when the prompt is non-empty and there are one to five images |
| Gemini.ImageGuardsPrecedeModel | backend/gemini_service.py:131-137 | a failing guard raises a ValueError whatever the model and the decoder do |
| Gemini.NoImagesTakesTextPath | backend/gemini_service.py:156-171 | without images, only the model's answer to the text prompt matters |
| Gemini.ImagesTakeImagePath | backend/gemini_service.py:168-169 | with images, only the model's answers to image prompts matter |
| Gemini.ValueErrorIffTooManyImages | backend/gemini_service.py:131-171 | generation raises a ValueError exactly when there are more than five images, with the message "Maximum 5 images allowed." |
| Gemini.GeneratedTextIsModelText | backend/gemini_service.py:116-171 | a generated description is the model's own non-empty answer to the prompt of the path taken |
| Gemini.TranslatedText | backend/gemini_service.py:201 | a stored translation is never empty: it is the stripped reply, or "Translation to X failed" |
| Gemini.TranslateFailureSticks | backend/gemini_service.py:186-204 | a failure on a prefix of the language list is the failure of the whole call |
| Gemini.TranslateDescription | backend/gemini_service.py:177-204 | the translation loop computes `Translate` |
| Gemini.NameSet | backend/gemini_service.py:187-190 | the set of names has no more elements than entries and no empty name |
| Gemini.NameSetMembers | backend/gemini_service.py:187-190 | a name is in the set exactly when it is non-empty and some entry yields it |
| Gemini.RequestedLanguagesMembers | backend/gemini_service.py:187-190 | a language is requested exactly when some entry strips to it and it is non-empty |
| Gemini.RequestedLanguagesSnoc | backend/gemini_service.py:187-190 | one more entry adds at most its own stripped name to the requested languages |
| Gemini.TranslateAllResult | backend/gemini_service.py:186-202 | the keys are exactly the requested languages, and each value is the answer to that language's prompt |
| Gemini.TranslationKeysAndValues | backend/gemini_service.py:177-202 | a translation result has at most three keys, each trimmed and non-empty, and no empty value |
| Gemini.TranslateValueErrorIffGuard | backend/gemini_service.py:178-183 | translation raises a ValueError exactly when the description is empty or the list has zero or more than three entries |
| Gemini.TranslateAllRaisesException | backend/gemini_service.py:185-204 | every failure inside the translation loop is a mapped Exception |
| Gemini.TranslateGuardsPrecedeModel | backend/gemini_service.py:178-183 | when a guard fails, the model is not consulted |
| History.IndexWhere | backend/history.py:70-74 | the lookup finds a row satisfying the condition, or reports that none does |
| History.SaveUpdatesIffActiveExists | backend/history.py:69-76 | a save updates exactly when the user has an active row with that product name |
| History.SaveUpdateTouchesOneRow | backend/history.py:76-107 | an update revises exactly that one row and returns its id |
| History.SaveInsertAppends | backend/history.py:108-135 | an insert appends one new row with the fresh id and returns that id |
| History.SaveKeepsInvariant | backend/history.py:47-135 | a save keeps ids unique and at most one active row per user and product name |
| History.SavedRowHoldsDraft | backend/history.py:47-135 | after a save, the user's active row for that product exists, carries the returned id and holds the saved fields |
| History.DeleteFailsIffNoActiveOwned | backend/history.py:154-162 | a delete fails with "Generation not found or access denied" exactly when the user has no active row with that id |
| History.DeleteTouchesOneRow | backend/history.py:164-170 | a delete soft-deletes exactly that one row |
| History.DeleteKeepsInvariant | backend/history.py:137-172 | a delete keeps the table invariant |
| History.DeleteTwiceFails | backend/history.py:137-172 | deleting the same generation again fails as not found |
| History.ActiveRowsOf | backend/history.py:24 | the selected rows are exactly the user's active rows |
| History.InsertByAge | backend/history.py:25 | inserting a row into a newest-first list keeps it newest first and adds exactly that row |
| History.NewestFirst | backend/history.py:25 | the ordering is newest first and is a permutation of its input |
| History.QueryListsOwnActiveRows | backend/history.py:19-27 | the listing holds only the user's active rows, newest first, as many as there are up to fifty |
| History.QueryOmitsOnlyOlderRows | backend/history.py:24-26 | an active row of the user is left out only when fifty rows at least as new are listed |
| History.ToEntry | backend/history.py:32-43 | a listed entry carries the row's id, its six texts, its images (defaulting to `[]`) and its times |
| History.GenerationTable.Save | backend/history.py:47-135 | the save updates the table as `SaveRows` says, either revising one row or appending one, and keeps it valid |
| History.GenerationTable.Delete | backend/history.py:137-172 | the delete updates the table as `DeleteRows` says, or leaves it unchanged with the not-found error |
| History.GenerationTable.GetUserGenerations | backend/history.py:7-45 | the listing loop gives one entry per queried row, in order |
| Endpoints.FailureResponse | backend/main.py:275-279 | a ValueError is answered with 400 and anything else with 500, carrying the exception's text |
| Endpoints.StrippedFields | backend/main.py:243-247 | on success every field is its stripped text; on failure the error is that of the first field that is not a string |
| Endpoints.AuthorizeCases | backend/main.py:23-45 | every refusal is 401; the format error happens exactly when the header has no space, the missing-token error exactly when the header or its second field is empty, the rejected-token error exactly when the verifier refuses a non-empty second field, and the handler runs exactly when the verifier accepts it, with the claims it gave |
| Endpoints.BearerHeaderPassesToken | backend/main.py:28-32 | `Bearer <token>` hands exactly that token to the verifier |
| Endpoints.RegisterCheckOrder | backend/main.py:58-105 | registration checks required fields, then password length, then taken user name, then taken e-mail, each failing with its own 400; the answer is 201 exactly when all pass, the account is created and its refresh token is issued |
| Endpoints.LoginHidesWhichCredentialFailed | backend/main.py:117-127 | an unknown user name and a wrong password get the same answer: the 401 "Invalid credentials", or the 400 when the fields are missing |
| Endpoints.LoginOutcomes | backend/main.py:107-152 | login answers 400 "Username and password are required" exactly when the user name is blank or the password is falsy; 401 "Invalid credentials" exactly when the user is unknown or the password check fails; 200 exactly when the user exists, the password check passes and the refresh token is issued; and every exception gets the one fixed 500 message |
| Endpoints.ImageListSelection | backend/main.py:249-259 | a non-empty `images` list wins, otherwise a truthy `image` is used alone, otherwise there are no images |
| Endpoints.AbsentLanguageMeansEnglish | backend/main.py:247 | without `target_language` the language is English and the prompt carries no language clause |
| Endpoints.GenerateStatus | backend/main.py:238-279 | with well-formed fields the answer is 400 exactly when more than five images are sent, and a 200 carries non-empty text |
| Endpoints.SaveEndpointStatus | backend/main.py:298-335 | the answer is the fields-required 400, with the table unchanged, exactly when the name or description is blank; 200 when an active row existed; 201 otherwise; a 200 or 201 carries the updated or saved message, the id of the row written and the updated flag, and the table is the one `SaveRows` gives |
| Endpoints.SaveEndpointKeepsInvariant | backend/main.py:317-326 | a save through the handler keeps the table invariant |
| Endpoints.DeleteEndpointStatus | backend/main.py:343-353 | the answer is 404, with the table unchanged, exactly when the user has no active row with that id; after a 200 the id is gone from the listing |
| Endpoints.GenerationsListOwnActive | backend/main.py:285-292 | the listing is 200 with at most fifty entries, each from an active row of the user |
| Endpoints.UnauthorizedRequestsChangeNothing | backend/main.py:23-45 | a refused token gives 401 on every history route and leaves the table unchanged |
| Endpoints.TranslateEndpointBadRequest | backend/main.py:358-373 | the answer is 400 exactly when the description is blank or the list is not a list, is empty or has more than three entries, with each check's own message |
| Endpoints.TranslateEndpointResult | backend/main.py:375-380 | a 200 holds one non-empty translation per requested language, at most three |

## Left out

- JWT signing and verification, bcrypt hashing, token issuance and revocation
  (`backend/auth.py`): they are parameters of the model, not modelled.
- The database layer (`backend/database.py`): the table is the sequence of
  rows in `History`. Connection and query failures, and the 500 they would
  cause in every history route, are not modelled.
- The refresh, logout, current-user and health routes: they only wrap token
  and database calls.
- Flask, CORS, request parsing and logging (`print`, tracebacks). A request
  body is taken to be a JSON object. A non-object body would make `.get`
  raise, which is not modelled.
- Image decoding with base64 and PIL, the MIME-type fallback and the RGB
  conversion: the decoder is a parameter that either fails or yields an image.
- JSON floats and the Python types of nested values: the JSON model has
  null, booleans, integers, strings, lists and objects by size.
- The `image_urls` column type: any JSON value is stored as sent.
- Text.Lower: lower-cases ASCII letters only, because Python's full Unicode
  case mapping is not modelled.
- Gemini.GenerateProductDescription / Gemini.Translate: the generative model
  is a function, so the same prompt always gets the same reply. In the
  source every prompt is a separate live call: a repeated language such as
  `["French", "French "]` makes a second call whose reply could differ or
  fail, and the model does not capture that.
- Endpoints.Register: the account store is a parameter, so an account
  created before its refresh token fails to be stored stays in the store in
  the source; the model records only the 500 answer.
- History.GenerationTable.Save: the id of an inserted row comes from the
  database. It is a parameter required to be unused.
- History.GenerationTable.Save: `created_at` is the caller's `now`, and
  `updated_at` stays absent on insert, because column defaults are not part
  of the source.
- History.GenerationTable.Save / History.SaveRows: requests are modelled one
  at a time. In the source, the look-up of an active row with the product
  name and the insert are separate database calls, each committed on its
  own. Two concurrent first saves of one product name can therefore both
  insert, leaving two active rows for that name. That race is not captured,
  and the invariant that each user has at most one active row per name is
  proved for sequential requests only.
- History.GenerationTable.Delete / History.DeleteRows: the same holds for
  deletes. The ownership look-up and the soft-delete update are separate
  database calls, so two concurrent deletes of one id can both pass the
  look-up and both answer 200. History.DeleteTwiceFails therefore holds for
  sequential requests only.
- History.Query: rows with equal creation times are listed in one fixed
  order of the model, because the query leaves their order open. The
  lemmas about the listing hold for any newest-first order.
- History.ToEntry: times are integers, and their ISO-8601 rendering is not
  modelled.
- Endpoints.Authorize: a verifier result is either claims or nothing. An
  empty claims dictionary, which Python also treats as a refusal, is not
  distinguished.
