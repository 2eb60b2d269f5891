# Refrigerator Alchemist front end: a Dafny model of its client-side logic

The application is a React client for sharing recipes and generating them with AI.
Most of it is presentation and HTTP glue. This project models the parts that hold
logic, each as a pure function over immutable values:

- **TagInput**: the ingredient tag field. Input is trimmed. Blank and duplicate tags
  are rejected. Tags are deleted by position. The list stays free of duplicates.
- **EditPost**: the post editor. It loads the first item of the server's reply. It
  edits, appends and removes ingredient lines, and a line's remove button only
  appears while there are at least two lines. It builds the update body.
- **SignUp**: the client-side checks on the sign-up page. These are the email
  pattern (a hand-written recognizer proved equal to the regular expression's
  grammar), the nickname pattern, the password rule, the tri-state
  password-confirmation flag and the submit button's `disabled` expression.
- **UserContext**: the user reducer and the request interceptor that attaches
  stored tokens. It also covers the flags that server replies drive (`emailExists`,
  `takenTime`, `expireTime`, `verified`, `nameDuplicated`), the code-expiry gate,
  and the browser-storage keys written by login and removed by logout.

Shared pieces:

- JsStrings: `trim` with the exact ECMAScript white-space set, `.length`
  counted in UTF-16 code units, and character classes.
- Lists: removal by index written as the `filter` it is in the source.
- Http: axios outcomes and JavaScript truthiness.

How the environment is modelled:

- Browser storage is a `map<string, string>`.
- An HTTP exchange is an input value `Reply`. It is either a network error or a
  status with headers and data. With axios' default status check, only a 2xx
  status resolves; every other status goes to the caller's `catch`.
- Clock readings are integer milliseconds passed in by the caller.
- Alerts, toasts, console output and navigation are dropped, because they change
  no state.

Points where the code is followed over a plainer reading of it:

- An email-request reply with a non-2xx status changes no flag. axios rejects it,
  so it never reaches the `else` branch. Only a 2xx status other than 204 sets
  `emailExists` the "other" way.
- `fetchData` maps over every item before it reads `items[0]`. So a later item
  whose `ingredients` is not an array throws and aborts the whole load. An empty
  `items` array also throws, at `items[0].title`.
- Password and length checks count UTF-16 code units, as `.length` does. A
  character outside the Basic Multilingual Plane counts twice.
- The regular expressions' `i` flag changes nothing: every class already holds
  both cases. The nickname classes only admit single-code-unit characters.
- `setItem` of an absent reply field stores the string `"undefined"`. The
  interceptor then sends `Bearer undefined`.
- axios delivers response header names in lower case. So `headers['socialId']` is
  always absent, and the dispatched user never has an id. `headers.get('socialId')`
  does find it, so storage gets the id.
- A login reply whose body is `null` writes the three header-fed keys and then
  throws at `response.data.name`. The `catch` only alerts, so no user is
  dispatched although the id is stored.

## Model

| member | source | states |
|---|---|---|
| `JsStrings.Trim` | src/components/gpt/TagInput.jsx:25 | the result is a slice of the input, with only white space cut from either end. It is empty exactly when the input is all white space, and no white space is left at its ends |
| `JsStrings.TrimIdempotent` | src/components/gpt/TagInput.jsx:25 | trimming twice is trimming once |
| `JsStrings.Utf16Length` | src/pages/SignUp.jsx:93-94 | `.length` lies between the character count and twice that. It equals the character count exactly when every character is in the Basic Multilingual Plane |
| `JsStrings.Any` | src/pages/SignUp.jsx:95-97 | `/[class]/.test(s)` holds exactly when some character of `s` is in the class |
| `JsStrings.All` | src/pages/SignUp.jsx:76 | an anchored repetition of a class matches exactly when every character is in the class |
| `Lists.RemoveIndex` | src/components/gpt/TagInput.jsx:37 | filtering out position `i` gives `xs[..i] + xs[i+1..]` for an index in range and the list unchanged otherwise |
| `Lists.RemoveIndexMultiset` | src/pages/EditPost.jsx:161 | removal keeps every other element: the length drops by one and only `xs[i]` is missing from the multiset |
| `Lists.RemoveIndexKeepsNoDuplicates` | src/components/gpt/TagInput.jsx:36-38 | deleting never creates a duplicate |
| `TagInput.AddTag` | src/components/gpt/TagInput.jsx:24-34 | a tag is appended exactly when the trimmed input is non-empty and not already present. The comparison is exact and case-sensitive. The appended tag is the trimmed input and the old tags stay as a prefix. The field is cleared only on an append; otherwise nothing changes. Distinct, trimmed, non-empty tags stay so |
| `TagInput.HandleKeyDown` | src/components/gpt/TagInput.jsx:13-22 | keys other than Enter and a blank input change nothing; Enter behaves as the add button |
| `TagInput.EnterGuardIsRedundant` | src/components/gpt/TagInput.jsx:18-19 | the blank-input guard before `addTag` never changes the outcome |
| `TagInput.HandleDelete` | src/components/gpt/TagInput.jsx:36-38 | an in-range index removes that tag alone and shortens the list by one. An out-of-range index changes nothing. The input is untouched and the list invariant is kept |
| `TagInput.RunKeepsWellFormed` | src/components/gpt/TagInput.jsx:8-38 | any sequence of typing, Enter, "+" and "×" keeps a duplicate-free list of trimmed, non-empty tags |
| `TagInput.AddTagIsCaseSensitive` | src/components/gpt/TagInput.jsx:27 | `" Egg "` is added beside an existing `"egg"` |
| `EditPost.ProjectItems` | src/pages/EditPost.jsx:32-36 | the projection succeeds exactly when every item's ingredients is an array, and then maps each item to its title, `Recipe` and ingredients in order |
| `EditPost.FetchData` | src/pages/EditPost.jsx:18-47 | without a post id nothing changes. A projectable, non-empty `items` array sets the three fields from its first item. Any other outcome leaves the form as it was |
| `EditPost.LaterItemsIgnored` | src/pages/EditPost.jsx:37-39 | items after the first never reach the form |
| `EditPost.MalformedLaterItemAbortsLoad` | src/pages/EditPost.jsx:35 | a second item without an ingredients array makes the load change nothing |
| `EditPost.ChangeIngredient` | src/pages/EditPost.jsx:50-54 | the line at `index` takes the value. The length and every other line are unchanged |
| `EditPost.AddIngredientField` | src/pages/EditPost.jsx:57-59 | one empty line is appended after the unchanged old lines |
| `EditPost.RemoveIngredient` | src/pages/EditPost.jsx:159-163 | the lines before `index` keep their places, the ones after it move up by one, and the length drops by one |
| `EditPost.Step` | src/pages/EditPost.jsx:146-172 | an interaction happens exactly when its control is rendered. Remove buttons exist only when there is more than one line, so a non-empty list stays non-empty |
| `EditPost.RunKeepsAnIngredient` | src/pages/EditPost.jsx:155-167 | any session of rendered interactions starting from at least one line ends with at least one line |
| `EditPost.SubmitBody` | src/pages/EditPost.jsx:66-70 | the body has exactly the keys `recipeName`, `description` and `ingredients`, each carrying the current state |
| `EditPost.SubmitBodyInjective` | src/pages/EditPost.jsx:66-70 | different forms give different bodies |
| `EmailPattern.GroupsIffSepsGuarded` | src/pages/SignUp.jsx:48 | `([-_.]?[0-9a-zA-Z])*` matches exactly the strings of alphanumerics and separators in which every separator is followed by an alphanumeric |
| `EmailPattern.IsWordDecidesWord` | src/pages/SignUp.jsx:48 | the one-pass test decides the word sub-pattern `[0-9a-zA-Z]([-_.]?[0-9a-zA-Z])*` |
| `EmailPattern.SplitIsCanonical` | src/pages/SignUp.jsx:48 | every reading of a string as word, `@`, word, `.`, top-level domain puts the `@` at the first `@` and the `.` at the last `.` after it |
| `EmailPattern.IsEmail` | src/pages/SignUp.jsx:47-48 | splitting at the first `@` and the last `.` after it accepts exactly the strings the regular expression matches |
| `EmailPattern.AcceptsDottedDomain` | src/pages/SignUp.jsx:48 | `cook@fridge.co.kr` matches |
| `EmailPattern.RejectsDoubledSeparator` | src/pages/SignUp.jsx:48 | `a..b@x.io` does not match |
| `EmailPattern.RejectsLongTld` | src/pages/SignUp.jsx:48 | a four-letter top-level domain does not match |
| `SignUp.IsPasswordValid` | src/pages/SignUp.jsx:91-99 | valid exactly when the length is 8 to 15 code units and there is a digit, one of `!@#$%^&*` and an ASCII letter |
| `SignUp.ValidPasswordLightsLengthIndicator` | src/pages/SignUp.jsx:276-299 | a valid password lights the length checklist item |
| `SignUp.LengthIndicator` | src/pages/SignUp.jsx:278 | the length item lights for every password of eight or more characters and never for one of fewer than four. When every character is in the Basic Multilingual Plane it lights exactly at eight or more |
| `SignUp.LengthIndicatorIsWeaker` | src/pages/SignUp.jsx:278 | eight letters light the length item without being valid |
| `SignUp.SupplementaryCharactersCountTwice` | src/pages/SignUp.jsx:93 | a six-character password with three emoji passes the length rule |
| `SignUp.IsNickname` | src/pages/SignUp.jsx:76 | accepted exactly when it is two or more Hangul syllables and digits, or three or more ASCII letters and digits |
| `SignUp.MixedScriptNicknameRejected` | src/pages/SignUp.jsx:76 | a name holding both a Hangul syllable and a Latin letter is rejected |
| `SignUp.DigitNickname` | src/pages/SignUp.jsx:76 | a digits-only name is accepted exactly when it has at least two digits |
| `SignUp.CheckDuplication` | src/pages/SignUp.jsx:74-88 | the duplication check is requested exactly when the nickname matches, and the error is then cleared. A rejected nickname is cleared and a non-empty error shown |
| `SignUp.RequestVerifying` | src/pages/SignUp.jsx:44-60 | an empty email changes nothing and sends nothing. A request goes out exactly when the email matches the pattern, with the error cleared and the `sign-up` type. A non-matching email is cleared and the format error shown |
| `SignUp.PasswordMessage` | src/pages/SignUp.jsx:102-110 | there is no verdict while either field is empty; otherwise the verdict is whether the fields are equal |
| `SignUp.PasswordMessageSymmetric` | src/pages/SignUp.jsx:103-106 | the verdict does not depend on which field is which |
| `SignUp.SubmitDisabled` | src/pages/SignUp.jsx:304-311 | as written the button is disabled exactly when the email is taken, it is unverified, the nickname is taken, the length is outside 8 to 15 and the confirmation does not match. The password-rule conjunct adds nothing, and any one passed check enables the button |
| `SignUp.MatchingPasswordsAloneEnableSubmit` | src/pages/SignUp.jsx:304-311 | matching one-letter passwords enable the button with every other check failing |
| `SignUp.IntendedSubmitRequiresAllChecks` | src/pages/SignUp.jsx:304-311 | with the intended condition, an enabled button means every check passed, and then the written condition enables it too |
| `Http.MixedCaseNameMissing` | src/context/UserContext.jsx:290 | property access with a name containing an upper-case letter finds nothing among lower-cased header names |
| `UserContext.Reducer` | src/context/UserContext.jsx:39-49 | `SET_USER` replaces the user and keeps every other property. Any other type is an error that names the type |
| `UserContext.ReducerLastWriteWins` | src/context/UserContext.jsx:41-45 | of two `SET_USER` dispatches only the last one is visible |
| `UserContext.Intercept` | src/context/UserContext.jsx:13-23 | each authorization header is set to `Bearer ` plus the stored token exactly when that token is stored and non-empty; no other header is touched |
| `UserContext.InterceptIdempotent` | src/context/UserContext.jsx:13-23 | intercepting twice equals intercepting once |
| `UserContext.TenMinutesLater` | src/context/UserContext.jsx:118-120 | when both clock reads fall in the same minute, the expiry stamp is ten minutes after the first read. When the minute turns between them it is eleven minutes after, and when the hour turns it is 49 minutes before |
| `UserContext.RequestEmailForSignUp` | src/context/UserContext.jsx:75-99 | 204 clears `emailExists` and records the issue time. Another resolved status sets `emailExists`. A rejected request changes nothing. The other flags are untouched |
| `UserContext.RequestEmailForReset` | src/context/UserContext.jsx:102-129 | 204 sets `emailExists` and records both the issue and the expiry stamp. Another resolved status clears `emailExists`. A rejected request changes nothing |
| `UserContext.EmailFlowsAreMirrored` | src/context/UserContext.jsx:88-124 | on any resolved reply the two flows set `emailExists` to opposite values |
| `UserContext.CodeExpired` | src/context/UserContext.jsx:148-150 | the gate fires exactly when the expiry stamp minus the issue stamp exceeds ten minutes (600000 ms). A `null` stamp counts as 0 |
| `UserContext.CheckCodeVerification` | src/context/UserContext.jsx:132-178 | an empty code makes no request. An expired one makes none either. Otherwise the request is made, only a 204 reply sets `verified`, and no other flag changes |
| `UserContext.CheckNameDuplication` | src/context/UserContext.jsx:181-200 | on a resolved reply with a body, `nameDuplicated` becomes the truthiness of `isDuplicated`. Otherwise nothing changes, and no other flag ever changes |
| `UserContext.NameCheckLastAnswerWins` | src/context/UserContext.jsx:181-200 | of two nickname checks, a reply with a body decides the flag whatever came before; a failed or `null`-body reply keeps the earlier verdict |
| `UserContext.SignUpRunKeepsNoExpiryStamp` | src/context/UserContext.jsx:88-90 | no sign-up interaction sets `expireTime` |
| `UserContext.SignUpCodeNeverExpires` | src/context/UserContext.jsx:148-153 | from the initial flags, the gate never fires on the sign-up page |
| `UserContext.ResetCodeExpiredIffClockTicked` | src/context/UserContext.jsx:115-120 | after a reset 204, the code counts as expired exactly when the clock advanced between the first two reads |
| `UserContext.ResetCodeExpiredAcrossMinute` | src/context/UserContext.jsx:115-120 | after a reset 204 whose last two clock reads straddle a minute, the code is expired from the start |
| `UserContext.ResetCodeAcrossHour` | src/context/UserContext.jsx:115-120 | when those reads straddle an hour, the code is expired only if the first two reads are more than 59 minutes apart, so in practice it never expires |
| `UserContext.CheckCodeVerificationIntended` | src/context/UserContext.jsx:147-153 | with the intended gate a request is made only for a code issued at most ten minutes before the current reading |
| `UserContext.IntendedGateAcceptsFreshCode` | src/context/UserContext.jsx:147-153 | a code checked within ten minutes of issue is sent, in either flow |
| `UserContext.IntendedExpiryIsPermanent` | src/context/UserContext.jsx:147-153 | once expired at some time, a code stays expired at every later time |
| `Http.HeaderGet` | src/context/UserContext.jsx:283 | `headers.get(name)` finds a header exactly when some delivered name equals `name` up to case, and returns that header's value |
| `UserContext.StoreHeaderKeys` | src/context/UserContext.jsx:275-283 | the three header-fed `setItem` calls add exactly the token and id keys, with their login values, and keep every other key |
| `UserContext.StoreBodyKeys` | src/context/UserContext.jsx:284-286 | the three body-fed `setItem` calls add exactly the name, email and social-type keys, with their login values, and keep every other key |
| `UserContext.Login` | src/context/UserContext.jsx:253-300 | a resolved reply writes the tokens and id from the headers. With a body it also writes the name, email and social type and dispatches the user. With a `null` body it stops after the header keys and dispatches nothing. Other keys are untouched, and a rejected request changes nothing |
| `UserContext.LoginUserLacksSocialId` | src/context/UserContext.jsx:289-290 | the dispatched user's `socialId` is always absent |
| `UserContext.NullBodyLoginLooksSignedIn` | src/context/UserContext.jsx:275-297 | a resolved login with a `null` body still stores a non-empty id, so the browser looks signed in, while no user is dispatched |
| `UserContext.MissingTokenSentAsUndefined` | src/context/UserContext.jsx:275-278 | a login reply without an access-token header makes the interceptor send `Bearer undefined` |
| `UserContext.Logout` | src/context/UserContext.jsx:340-352 | a 204 reply removes the six logout keys and clears the user; anything else changes nothing |
| `UserContext.LoginAndLogoutKeysDiffer` | src/context/UserContext.jsx:344-349 | the login and logout key sets differ only in `socialId` versus `socialid` |
| `UserContext.LogoutLeavesSocialId` | src/context/UserContext.jsx:346 | after login and a successful logout, `socialId` is still stored with the login value. So the sign-up page still treats the browser as signed in |
| `UserContext.LogoutIntended` | src/context/UserContext.jsx:343-349 | a 204 reply removes every login key, so the browser no longer looks signed in |
| `UserContext.LoginThenLogoutRestoresStorage` | src/context/UserContext.jsx:275-286 | with the intended logout, login followed by logout leaves storage as it was apart from the login keys, and no user |

## Findings

| source | as written | input that shows it | evidently intended | confidence | as-written member | corrected member |
|---|---|---|---|---|---|---|
| src/pages/SignUp.jsx:304-311 | the button is disabled only when every failure condition holds at once | email taken, unverified, nickname taken, passwords `"a"` and `"a"`: the button is enabled | disabled while any check fails | high; not executed | `SignUp.MatchingPasswordsAloneEnableSubmit` | `SignUp.IntendedSubmitRequiresAllChecks` |
| src/context/UserContext.jsx:346 | logout removes `socialid`, but login writes `socialId` | any login, then a logout answered with 204: `socialId` is still stored, and the sign-up page reports "already signed in" | remove `socialId` | high; not executed | `UserContext.LogoutLeavesSocialId` | `UserContext.LogoutIntended` |
| src/context/UserContext.jsx:148-153 | the gate compares the two stored stamps and never the current time | sign-up flow: `expireTime` stays `null`, so a code never expires. Reset flow, stamps read at 0 and 1 ms: the code is rejected at once | reject when the current time is more than ten minutes after issue, and refuse when no code was issued | medium; not executed | `UserContext.SignUpCodeNeverExpires` | `UserContext.CheckCodeVerificationIntended` |

## Left out

- HTTP calls, the backend and the request bodies sent to it. Replies are inputs,
  and the backend's behaviour is not part of this model.
- Alerts, toasts, console output, `navigate`, focus handling and the OAuth
  redirects (`kakaoLogin`, `googleLogin`, `naverLogin`). These are side effects
  that change no modelled state.
- React rendering, hooks and effect scheduling. Each handler is one state
  transition, and the confirmation flag is a function of the two password fields.
- `signup`, `resetPassword` and `onSignUp`/`checkVerifying` on the sign-up
  page only forward values to a request and then alert or navigate; `onSignUp`
  calls `userApi.signUp`, which the context does not provide (it provides
  `signup`). These are not modelled.
- `deleteUser` (src/context/UserContext.jsx:234-250) runs `logout` once the
  delete request resolves, so it removes the six logout keys and clears the
  user exactly as `UserContext.Logout` does. It is not modelled as its own
  operation.
- `sendRefresh` (src/context/UserContext.jsx:392-419) overwrites `accessToken`
  in storage with `response.data.accessToken` on a 204 reply, which the
  interceptor then sends; a 204 reply without that field stores `"undefined"`.
  It is not modelled.
- The `GptResult`, `GetStarted` and `RankingDetail` pages, which copy response
  fields or are static.
- EditPost.ChangeIngredient: requires an index inside the list. Its only caller
  passes the index of a rendered line. Assigning past the end of a JavaScript
  array would leave holes, and that case is not modelled.
- EditPost.FetchData: an item that is itself `null` is not modelled. Nor is a
  title, `Recipe` value or ingredient element that is not a string: the
  source copies them whatever their type, and the model treats them all as
  strings.
- UserContext.CodeExpired: the gate's division is computed on
  exact reals, not IEEE doubles. For integer millisecond differences the two
  agree on the comparison with 10.
- UserContext.MinuteOf: takes the minute field in UTC. Local time differs only
  for time zones whose offset is not a whole number of hours. Daylight-saving
  changes between two reads are not modelled.
- UserContext.Login: assumes the axios 1.x headers object, which has a
  case-insensitive `get`. With older axios the headers are a plain object, so
  `headers.get` throws after the two token keys are written. That case is not
  modelled.
- Http.Truthy: numbers are integers, so `NaN` and fractions are not modelled.
- The wiring mismatch where the sign-up page imports `useUserApi`, which the
  context module does not export.
