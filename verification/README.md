# Admin user screen and registration payload — a Dafny model

This project models the two pieces of sequential logic in a Next.js front end for a
personal-finance service.

**The user administration screen** (`AdminUser`, `admin_user.dfy`) shares one confirm
dialog between three row actions. A row's menu calls `handleConfirmUser` with one of
three actions:

- "DELETAR" deletes the user.
- "STATUS" changes the user's role.
- "ALTERAR" activates or deactivates the user.

`handleConfirmUser` stores a title, a description, a handler tag (`functionConfirm`),
the target id and an optional snapshot of the row (`userChange`), and then opens the
dialog. The dialog footer picks the delete, role or status handler by the tag. Each
handler builds one request from the staged data and settles three ways: the reply's
status is 200, the status is something else, or the call throws. The screen's
create-user form has a small schema and a fixed role id.

The state is an immutable record (`ConfirmState`), and every transition is a pure
function: `Stage`, `Cancel`, and `Confirm`, which dispatches to `HandleDelete`,
`HandleRole` or `HandleStatus`. Roster reloads are counted, not performed. A trace
of operator events (`Event`, `Run`) lets the model state invariants that hold in
every reachable state.

**The first-access registration page** (`Register`, `register.dfy`) normalises the
form before sending it:

- The phone number keeps only its digits.
- The masked Brazilian-real amounts lose their first "R$" and first ".", and their
  first "," becomes ".".
- An absent or empty "others" amount is sent as 0.
- The photo's data-URL prefix is removed.
- A picked photo over 3,000,000 bytes is refused.

JavaScript's `String.prototype.replace` with a string pattern rewrites only the first
occurrence. `Text.ReplaceFirst` models that behaviour for a replacement without `$`
patterns, which covers every replacement the page uses ("" and "."), and lemmas tie it to a
declarative account of "first occurrence" (`Text.IsFirstOccurrence`).

Remote calls are not executed. Their outcome is a parameter of type `Feedback.Reply`:
`Responded(status, message)` or `Threw(message)`. Toasts are values of type
`Feedback.Toast`.

Some behaviour of the code worth knowing before reading the model:

- The dialog copy is in Portuguese (src/pages/admin/user/index.tsx:233-261).
- A non-200 reply that does not throw raises no toast in the three dialog handlers
  (src/pages/admin/user/index.tsx:267-276, 298-306, 324-335).
- Staging a delete passes no row, so the previous snapshot stays staged
  (src/pages/admin/user/index.tsx:256-258).
- The role handler sends role id 2 exactly for "ROLE_ADMIN" and role id 1 otherwise
  (src/pages/admin/user/index.tsx:291-294).
- Nothing stops a second confirm while a request is in flight.

The roster's role badge tests "ROLE_MANAGER" (src/pages/admin/user/index.tsx:123),
but the role handler tests "ROLE_ADMIN". The model keeps the handler's test as
written.

## Model

| member | source | states |
|---|---|---|
| AdminUser.Dispatch | src/pages/admin/user/index.tsx:530-542 | The footer's choice of handler is total: "delete" selects delete, "role" selects role, and every other tag, including the initial "", selects status. |
| AdminUser.Stage | src/pages/admin/user/index.tsx:233-261 | Staging opens the dialog and always overwrites the target id. It replaces the snapshot only when one is passed. It sets the title, description and tag per action: "DELETAR" gives "Deletar Usuário"/delete, "STATUS" gives "Alterar Role"/role, "ALTERAR" gives "Ativar/Inativar Usuário"/status. The tag it sets dispatches to the handler that action is meant for. |
| AdminUser.Cancel | src/pages/admin/user/index.tsx:517-528 | Cancel closes the dialog and changes nothing else. |
| AdminUser.StageOverwritesCancel | src/pages/admin/user/index.tsx:256-260 | Staging after a cancel gives the same state as staging without it, so a cancel leaves no trace for the next confirmation. |
| AdminUser.RowMenu | src/pages/admin/user/index.tsx:156-181 | Delete ("Excluir") is always the first item and passes no snapshot. Role change is offered exactly when the row's name is not "admin"; it is then the second item, "Alterar Perfil", and passes the row. The toggle is always last and passes the row. It reads "Inativar" for an "ACTIVE" row and "Ativar" otherwise. |
| AdminUser.RoleIdFor | src/pages/admin/user/index.tsx:291-294 | The role id sent is 1 or 2. It is 2 exactly when the snapshot's perfil is "ROLE_ADMIN". |
| AdminUser.NextStatus | src/pages/admin/user/index.tsx:318-321 | The requested status is "INACTIVE" exactly when a snapshot exists and is "ACTIVE". In every other case it is "ACTIVE", including when there is no snapshot. |
| AdminUser.NextStatusInvolution | src/pages/admin/user/index.tsx:318-321 | For a row whose status is "ACTIVE" or "INACTIVE", flipping twice gives back the original status. |
| AdminUser.StatusToast | src/pages/admin/user/index.tsx:325-330 | The status success toast is the warning "Usuário inativado com sucesso." exactly when the request deactivates the user; otherwise it is the success "Usuário ativado com sucesso.". |
| AdminUser.Settle | src/pages/admin/user/index.tsx:267-284 | Once a request is sent, status 200 gives exactly the success toast, closes the dialog and adds one reload. Any other outcome leaves the state unchanged. |
| AdminUser.HandleDelete | src/pages/admin/user/index.tsx:263-285 | The delete request carries the staged id. On status 200 the toast title is the service's message. |
| AdminUser.HandleRole | src/pages/admin/user/index.tsx:287-314 | With no snapshot, the handler sends nothing, raises no toast and changes no state. Otherwise the request targets the snapshot's id with `RoleIdFor` of its perfil, and status 200 raises "Perfil alterado com sucesso.". |
| AdminUser.HandleStatus | src/pages/admin/user/index.tsx:316-344 | The request targets the staged id, not the snapshot's id, and asks for `NextStatus` of the snapshot. Status 200 raises `StatusToast`. |
| AdminUser.Confirm | src/pages/admin/user/index.tsx:263-344 | The only click that sends nothing is the role handler without a snapshot. Status 200 gives one non-error toast, closes the dialog and adds one reload. Another status gives no toast and no change. A throw gives exactly one error toast with the error's message and no other change. |
| AdminUser.StageThenConfirmRunsIntendedHandler | src/pages/admin/user/index.tsx:530-542 | Staging an action and then confirming runs the handler for that action: "DELETAR" runs delete, "STATUS" runs role, "ALTERAR" runs status. |
| AdminUser.DeleteEndToEnd | src/pages/admin/user/index.tsx:263-276 | Staging a delete and getting status 200 sends the staged id. It raises one success toast with the service's message, closes the dialog and reloads once. |
| AdminUser.RetryResendsSameRequest | src/pages/admin/user/index.tsx:278-284 | After a confirm that did not get status 200, confirming again sends the identical request. |
| AdminUser.ToggleLabelMatchesRequest | src/pages/admin/user/index.tsx:174-181 | Choosing the toggle and confirming sends a status request for the row's id. It asks for "INACTIVE" exactly when the label read "Inativar", and then the success toast is a warning. |
| AdminUser.RunKeepsCoherent | src/pages/admin/user/index.tsx:156-181 | Every sequence of menu picks, cancels and confirms keeps two facts true. An open dialog has a row action's tag. The role and status tags carry a snapshot of the targeted user. |
| AdminUser.ReachableConfirmTargetsStagedUser | src/pages/admin/user/index.tsx:287-321 | In every reachable state, confirming an open dialog sends a request (the role handler's early return never fires). The request targets the staged user id. |
| AdminUser.ValidateInsert | src/pages/admin/user/index.tsx:64-87 | The form is accepted exactly when the e-mail is well formed, the password has at least 3 characters and the confirmation equals the password. Each error is reported exactly when its condition fails. An accepted form yields the user with role id 2. |
| AdminUser.FieldMessages | src/pages/admin/user/index.tsx:64-87 | A message shows under an input exactly when its check failed: "E-mail inválido." under the e-mail, the 3-character message under the password, and "As senhas não conferem" under the confirmation, where the refinement puts it. |
| AdminUser.SubmitInsert | src/pages/admin/user/index.tsx:351-385 | A rejected form sends nothing, raises no toast and shows `FieldMessages` of its errors. An accepted one sends exactly the validated user (the form's e-mail, name and password with role id 2) and raises exactly one toast: success with the service's message on 200, an error with the response's message otherwise, or an error with the thrown message. Only 200 closes the form and reloads once. |
| Text.ReplaceFirstRewritesFirstOccurrence | src/pages/register/index.tsx:74-76 | `replace` with a string pattern rewrites the first occurrence and keeps everything before and after it. |
| Text.ReplaceFirstWithoutOccurrence | src/pages/register/index.tsx:77-81 | A string without the pattern comes back unchanged. |
| Text.KeepDigits | src/pages/register/index.tsx:70 | The cell sent has only '0'..'9'. It is a subsequence of the input, so the digits keep their original order. It has exactly as many of each digit as the input. |
| Text.KeepDigitsFixesExactlyDigitStrings | src/pages/register/index.tsx:70 | The filter leaves a string unchanged exactly when the string is all digits. |
| Text.KeepDigitsAppend | src/pages/register/index.tsx:70 | Filtering a concatenation equals concatenating the filtered parts. |
| Register.NormaliseKeepsBareNumber | src/pages/register/index.tsx:74-76 | Text with no "R$", "." or "," is sent as it is. |
| Register.NormaliseSeparatedAmount | src/pages/register/index.tsx:74-76 | "R$" + lead + "." + rest + "," + cents becomes lead + rest + "." + cents. Only the first separator goes; later separators in `rest` survive. |
| Register.NormalisePlainAmount | src/pages/register/index.tsx:74-76 | "R$" + units + "," + cents with no "." becomes units + "." + cents. |
| Register.SecondSeparatorSurvives | src/pages/register/index.tsx:74-76 | "R$ 1.000.000,00" becomes " 1000.000.00": the second thousands separator survives. |
| Register.OthersAmount | src/pages/register/index.tsx:71-73 | An absent or empty "others" field is sent as the literal 0. Any other value goes through the same normalisation as the salary. |
| Register.PhotoPayload | src/pages/register/index.tsx:77-81 | An absent or empty base64 field gives "". |
| Register.PhotoWithoutPrefixUnchanged | src/pages/register/index.tsx:77-81 | Text containing neither data-URL prefix passes through unchanged. |
| Register.PhotoStripsJpegPrefix | src/pages/register/index.tsx:77-81 | A JPEG data URL over a base64 body is sent as the bare body. |
| Register.PhotoStripsPngPrefix | src/pages/register/index.tsx:77-81 | A PNG data URL over a base64 body is sent as the bare body; the JPEG pattern matches nowhere in it. |
| Register.HandleFile | src/pages/register/index.tsx:106-118 | A first file over 3,000,000 bytes raises one warning toast and keeps the stored file. A size of 3,000,000 bytes or less stores that file and raises no toast. |
| Register.HandleFileReadsFirstOnly | src/pages/register/index.tsx:107-117 | Files after the first never affect the outcome. |
| Register.HandleFileBoundary | src/pages/register/index.tsx:107 | A photo of exactly 3,000,000 bytes is kept. One byte more is refused. |
| Register.BuildPayload | src/pages/register/index.tsx:66-82 | The payload carries the session's user id and the digits-only cell. Salary is the normalised text, "others" follows `OthersAmount`. No stored file means an empty photo; a stored file sends `PhotoPayload` of its base64. |
| Register.PayloadSendsBarePhoto | src/pages/register/index.tsx:77-81 | A stored JPEG or PNG data URL over a base64 body reaches the request as the bare body. |
| Register.Submit | src/pages/register/index.tsx:84-103 | Status 200 gives one success toast with the service's message and navigates to "/". A throw gives one error toast and no navigation. Any other status gives neither. |

## Left out

- Rendering, Chakra widgets, hooks, colour modes and the data table are left out. The model keeps only the state those widgets read and write.
- The services `deleteUser`, `updateRole`, `updateStatusUser`, `listAllUser`, `createUser` and `createRegister` are not executed. Each call's outcome is a `Reply` parameter.
- `loadUsers` is modelled only as the reload counter. Its loading flag, the list it fetches and its own error toast are not modelled.
- `handleEditUser` is left out: it only writes to the console.
- AdminUser.ValidateInsert: the e-mail check of the validation library is a boolean parameter, and the schema's `.trim()` of the e-mail is not modelled.
- AdminUser.ValidateInsert: every field is taken to be a string. The "Digite o …" messages for a field left untouched are not modelled, and neither is the schema skipping the password-match check in that case.
- AdminUser.ValidateInsert: the password length counts Unicode scalar values. The JavaScript check counts UTF-16 code units, so the two differ only for characters outside the Basic Multilingual Plane.
- The input masks (`realMask`, `emailMask`, the phone mask) and `addCentsMarkCurrency` are left out. The amount lemmas assume the mask's "R$ 1.234,56" shape as a precondition.
- `Number(...)` on the currency strings is floating point and is left out. The model stops at the text handed to it, or at the literal 0.
- Register.HandleFile: requires at least one file. The page reads `files[0]` without a guard, and the file picker always reports at least one file.
- AdminUser.RunKeepsCoherent: an out-of-range menu pick in the event trace selects nothing. A real menu has no such item.
- AdminUser.RoleIdFor: the role "inversion" round trip is left out. Which perfil each role id stands for is decided by the server, which is not part of this model.
- Concurrency and double submission are left out. The page has no in-flight guard, and the model adds none.
- The session lookup and the authentication redirect are left out. The session's user id is a parameter.
- src/pages/remember-password/index.tsx, next.config.js and src/pages/_app.tsx are not part of this model. They hold one remote call, configuration and provider wiring.
