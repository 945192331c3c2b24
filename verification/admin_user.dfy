/**
  The user administration screen (`src/pages/admin/user/index.tsx`). One confirm
  dialog serves three row actions. A row's menu stages the action: title,
  description, a handler tag, the target id and, for two of the actions, a
  snapshot of the row. The dialog's confirm button then runs the handler the tag
  selects. Each handler builds one request from the staged data and settles on
  the service's reply. The screen also has a create-user form with its own schema.
 */
module AdminUser {
  import opened Wrappers
  import opened Feedback

  /** A roster row as the service lists it. */
  datatype UserRow = UserRow(userId: int, name: string, email: string, perfil: string, status: string)

  /** The `action` argument of `handleConfirmUser`. Its names are misleading:
      `Status` ("STATUS") changes the role, and `Alterar` ("ALTERAR")
      activates or deactivates the user. */
  datatype Action = Alterar | Deletar | Status

  /** The component state behind the confirm dialog. `tag` is `functionConfirm`,
      `userChange` the staged row snapshot, and `reloads` counts the roster
      reloads the handlers have started. */
  datatype ConfirmState = ConfirmState(
    userId: int,
    title: string,
    description: string,
    tag: string,
    userChange: Option<UserRow>,
    isOpen: bool,
    reloads: nat)

  /** The state on mount: every `useState` initial value, dialog closed. */
  const Initial := ConfirmState(0, "", "", "", None, false, 0)

  const DeleteTag := "delete"
  const RoleTag := "role"
  const StatusTag := "status"

  /** The three confirm buttons of the dialog footer. */
  datatype Handler = DeleteHandler | RoleHandler | StatusHandler

  /** The footer's choice of confirm button: any tag other than "delete" and
      "role", the initial "" included, gets the status handler. */
  function Dispatch(tag: string): (h: Handler)
    ensures h == DeleteHandler <==> tag == DeleteTag
    ensures h == RoleHandler <==> tag == RoleTag
    ensures tag != DeleteTag && tag != RoleTag ==> h == StatusHandler
  {
    if tag == DeleteTag then DeleteHandler
    else if tag == RoleTag then RoleHandler
    else StatusHandler
  }

  /** The handler each row action is meant to reach. */
  function IntendedHandler(action: Action): Handler
  {
    match action
    case Deletar => DeleteHandler
    case Status => RoleHandler
    case Alterar => StatusHandler
  }

  /** `handleConfirmUser`: stage the copy and tag for the action, always overwrite
      the target id, replace the snapshot only when one is passed, open the dialog. */
  function Stage(s: ConfirmState, userId: int, action: Action, user: Option<UserRow>): (t: ConfirmState)
    ensures t.isOpen && t.userId == userId && t.reloads == s.reloads
    ensures t.userChange == if user.Some? then user else s.userChange
    ensures Dispatch(t.tag) == IntendedHandler(action)
    ensures action == Deletar ==>
              t.title == "Deletar Usuário" && t.tag == DeleteTag &&
              t.description == "Você tem certeza que deseja excluir esse usuário?"
    ensures action == Status ==>
              t.title == "Alterar Role" && t.tag == RoleTag &&
              t.description == "Você tem certeza que deseja alterar a role desse usuário?"
    ensures action == Alterar ==>
              t.title == "Ativar/Inativar Usuário" && t.tag == StatusTag &&
              t.description == "Você tem certeza que deseja alterar o status desse usuário?"
  {
    var (title, description, tag) :=
      match action
      case Deletar => ("Deletar Usuário", "Você tem certeza que deseja excluir esse usuário?", DeleteTag)
      case Status => ("Alterar Role", "Você tem certeza que deseja alterar a role desse usuário?", RoleTag)
      case Alterar => ("Ativar/Inativar Usuário", "Você tem certeza que deseja alterar o status desse usuário?", StatusTag);
    ConfirmState(userId, title, description, tag,
                 if user.Some? then user else s.userChange, true, s.reloads)
  }

  /** `onCloseConfirm`, from the Cancel button or the dialog's own close: the
      dialog closes and the staged data stays. */
  function Cancel(s: ConfirmState): (t: ConfirmState)
    ensures !t.isOpen
    ensures t.(isOpen := s.isOpen) == s
  {
    s.(isOpen := false)
  }

  /** Staging after a cancel is staging as if the cancel had not happened. */
  lemma StageOverwritesCancel(s: ConfirmState, userId: int, action: Action, user: Option<UserRow>)
    ensures Stage(Cancel(s), userId, action, user) == Stage(s, userId, action, user)
  {
  }

  /** One entry of a row's menu: its text, the action it stages and whether it
      passes the row as snapshot. */
  datatype MenuItem = MenuItem(text: string, action: Action, passesRow: bool)

  /** The row menu: delete (without snapshot), role change unless the row is the
      "admin" account, and the status toggle labelled by the row's status. */
  function RowMenu(row: UserRow): (items: seq<MenuItem>)
    ensures |items| == if row.name != "admin" then 3 else 2
    ensures items[0] == MenuItem("Excluir", Deletar, false)
    ensures items[|items| - 1].action == Alterar && items[|items| - 1].passesRow
    ensures items[|items| - 1].text == if row.status == "ACTIVE" then "Inativar" else "Ativar"
    ensures row.name != "admin" ==> items[1] == MenuItem("Alterar Perfil", Status, true)
    ensures (exists k :: 0 <= k < |items| && items[k].action == Status) <==> row.name != "admin"
  {
    var toggle := MenuItem(if row.status == "ACTIVE" then "Inativar" else "Ativar", Alterar, true);
    if row.name != "admin" then
      var items := [MenuItem("Excluir", Deletar, false), MenuItem("Alterar Perfil", Status, true), toggle];
      assert items[1].action == Status;
      items
    else
      var items := [MenuItem("Excluir", Deletar, false), toggle];
      assert forall k :: 0 <= k < |items| ==> items[k] == MenuItem("Excluir", Deletar, false) || items[k] == toggle;
      items
  }

  /** Clicking a menu item of `row`. */
  function Select(s: ConfirmState, row: UserRow, item: MenuItem): ConfirmState
  {
    Stage(s, row.userId, item.action, if item.passesRow then Some(row) else None)
  }

  /** What a handler sends to the user service. */
  datatype Request =
    | DeleteRequest(userId: int)
    | RoleRequest(userId: int, roleId: int)
    | StatusRequest(userId: int, status: string)

  /** The role id sent by the role handler. */
  function RoleIdFor(perfil: string): (roleId: int)
    ensures roleId == 1 || roleId == 2
    ensures roleId == 2 <==> perfil == "ROLE_ADMIN"
  {
    if perfil == "ROLE_ADMIN" then 2 else 1
  }

  /** The status the status handler asks for: the opposite of the snapshot's, and
      "ACTIVE" when there is no snapshot. */
  function NextStatus(snapshot: Option<UserRow>): (status: string)
    ensures status == "ACTIVE" || status == "INACTIVE"
    ensures status == "INACTIVE" <==> snapshot.Some? && snapshot.value.status == "ACTIVE"
  {
    if snapshot.Some? && snapshot.value.status == "ACTIVE" then "INACTIVE" else "ACTIVE"
  }

  /** Flipping the status twice gives back a row's own status. */
  lemma NextStatusInvolution(row: UserRow)
    requires row.status == "ACTIVE" || row.status == "INACTIVE"
    ensures NextStatus(Some(row.(status := NextStatus(Some(row))))) == row.status
  {
  }

  /** The status handler's success toast: deactivation warns, activation succeeds. */
  function StatusToast(snapshot: Option<UserRow>): (t: Toast)
    ensures t.severity == Warning <==> NextStatus(snapshot) == "INACTIVE"
    ensures t.severity == Warning || t.severity == Success
    ensures t.title == if NextStatus(snapshot) == "INACTIVE" then "Usuário inativado com sucesso."
                       else "Usuário ativado com sucesso."
  {
    if snapshot.Some? && snapshot.value.status == "ACTIVE" then Toast("Usuário inativado com sucesso.", Warning)
    else Toast("Usuário ativado com sucesso.", Success)
  }

  /** One click of a confirm button: the request sent (if any), the toasts
      raised and the resulting state. */
  datatype Step = Step(state: ConfirmState, request: Option<Request>, toasts: seq<Toast>)

  /** How every handler settles once its request is sent. Status 200 raises the
      success toast, closes the dialog and reloads the roster; any other status
      does nothing; a throw raises an error toast with the error's message. */
  function Settle(s: ConfirmState, request: Request, reply: Reply, success: Toast): (st: Step)
    requires success.severity != Error
    ensures st.request == Some(request)
    ensures IsOk(reply) ==> st == Step(s.(isOpen := false, reloads := s.reloads + 1), Some(request), [success])
    ensures !IsOk(reply) ==> st.state == s
  {
    match reply
    case Threw(message) => Step(s, Some(request), [Toast(message, Error)])
    case Responded(status, _) =>
      if status == 200 then Step(s.(isOpen := false, reloads := s.reloads + 1), Some(request), [success])
      else Step(s, Some(request), [])
  }

  /** `handleDeleteUser`: deletes the staged id; the success toast is the
      service's message. */
  function HandleDelete(s: ConfirmState, reply: Reply): (st: Step)
    ensures st.request == Some(DeleteRequest(s.userId))
    ensures IsOk(reply) ==> st.toasts == [Toast(reply.message, Success)]
  {
    Settle(s, DeleteRequest(s.userId), reply, Toast(reply.message, Success))
  }

  /** `handleRoleUser`: without a snapshot it returns before calling anything;
      otherwise it targets the snapshot's id. */
  function HandleRole(s: ConfirmState, reply: Reply): (st: Step)
    ensures s.userChange.None? ==> st == Step(s, None, [])
    ensures s.userChange.Some? ==>
              st.request == Some(RoleRequest(s.userChange.value.userId, RoleIdFor(s.userChange.value.perfil)))
    ensures s.userChange.Some? && IsOk(reply) ==> st.toasts == [Toast("Perfil alterado com sucesso.", Success)]
  {
    match s.userChange
    case None => Step(s, None, [])
    case Some(user) =>
      Settle(s, RoleRequest(user.userId, RoleIdFor(user.perfil)), reply, Toast("Perfil alterado com sucesso.", Success))
  }

  /** `handleStatusUser`: targets the staged id, not the snapshot's, and asks for
      the opposite of the snapshot's status. */
  function HandleStatus(s: ConfirmState, reply: Reply): (st: Step)
    ensures st.request == Some(StatusRequest(s.userId, NextStatus(s.userChange)))
    ensures IsOk(reply) ==> st.toasts == [StatusToast(s.userChange)]
  {
    Settle(s, StatusRequest(s.userId, NextStatus(s.userChange)), reply, StatusToast(s.userChange))
  }

  /** The confirm button the footer shows for the staged tag. */
  function Confirm(s: ConfirmState, reply: Reply): (st: Step)
    // the role handler's early return is the only click that sends nothing
    ensures st.request.None? <==> Dispatch(s.tag) == RoleHandler && s.userChange.None?
    ensures st.request.None? ==> st == Step(s, None, [])
    // status 200: one success toast, dialog closed, one reload, staged data kept
    ensures st.request.Some? && IsOk(reply) ==>
              st.state == s.(isOpen := false, reloads := s.reloads + 1) &&
              |st.toasts| == 1 && st.toasts[0].severity != Error
    // another status: nothing observable happens
    ensures st.request.Some? && reply.Responded? && reply.status != 200 ==>
              st.state == s && st.toasts == []
    // a throw: one error toast with the error's message, nothing else changes
    ensures st.request.Some? && reply.Threw? ==>
              st.state == s && st.toasts == [Toast(reply.message, Error)]
  {
    match Dispatch(s.tag)
    case DeleteHandler => HandleDelete(s, reply)
    case RoleHandler => HandleRole(s, reply)
    case StatusHandler => HandleStatus(s, reply)
  }

  /** Staging `action` and confirming runs the handler meant for it. */
  lemma {:induction false} StageThenConfirmRunsIntendedHandler(
    s: ConfirmState, userId: int, action: Action, user: Option<UserRow>, reply: Reply)
    ensures var t := Stage(s, userId, action, user);
            Confirm(t, reply) ==
              match IntendedHandler(action)
              case DeleteHandler => HandleDelete(t, reply)
              case RoleHandler => HandleRole(t, reply)
              case StatusHandler => HandleStatus(t, reply)
  {
  }

  /** Deleting end to end: the staged id is sent, and on status 200 the toast
      carries the service's message, the dialog closes and the roster reloads once. */
  lemma DeleteEndToEnd(s: ConfirmState, userId: int, message: string)
    ensures var t := Stage(s, userId, Deletar, None);
            Confirm(t, Responded(200, message)) ==
              Step(t.(isOpen := false, reloads := s.reloads + 1), Some(DeleteRequest(userId)), [Toast(message, Success)])
  {
  }

  /** A confirm that did not succeed leaves the state as it was, so clicking again
      resends the very same request. */
  lemma RetryResendsSameRequest(s: ConfirmState, failed: Reply, next: Reply)
    requires !IsOk(failed)
    ensures Confirm(Confirm(s, failed).state, next).request == Confirm(s, failed).request
  {
  }

  /** The toggle's label announces the request it leads to: "Inativar" exactly
      when the confirmed request deactivates the row's user, and then the success
      toast is a warning. */
  lemma ToggleLabelMatchesRequest(s: ConfirmState, row: UserRow, reply: Reply)
    ensures var items := RowMenu(row);
            var toggle := items[|items| - 1];
            var st := Confirm(Select(s, row, toggle), reply);
            st.request == Some(StatusRequest(row.userId, if toggle.text == "Inativar" then "INACTIVE" else "ACTIVE")) &&
            (IsOk(reply) ==> (st.toasts[0].severity == Warning <==> toggle.text == "Inativar"))
  {
  }

  /** What the dialog can rely on in any state the screen can reach: an open
      dialog has a tag from a row action, and the role and status tags come with
      a snapshot of the very user that is targeted. */
  ghost predicate Coherent(s: ConfirmState)
  {
    && (s.isOpen ==> s.tag in {DeleteTag, RoleTag, StatusTag})
    && ((s.tag == RoleTag || s.tag == StatusTag) ==>
          s.userChange.Some? && s.userChange.value.userId == s.userId)
  }

  /** The operator's inputs: a click on the `choice`-th item of a row's menu, a
      cancel, or a confirm that the service answers with `reply`. The confirm
      button exists only while the dialog is open. */
  datatype Event = Pick(row: UserRow, choice: nat) | CancelDialog | ConfirmWith(reply: Reply)

  function Apply(s: ConfirmState, e: Event): ConfirmState
  {
    match e
    case Pick(row, choice) =>
      var items := RowMenu(row);
      if choice < |items| then Select(s, row, items[choice]) else s
    case CancelDialog => Cancel(s)
    case ConfirmWith(reply) => if s.isOpen then Confirm(s, reply).state else s
  }

  function Run(s: ConfirmState, events: seq<Event>): ConfirmState
    decreases |events|
  {
    if |events| == 0 then s else Run(Apply(s, events[0]), events[1..])
  }

  lemma ApplyKeepsCoherent(s: ConfirmState, e: Event)
    requires Coherent(s)
    ensures Coherent(Apply(s, e))
  {
  }

  lemma {:induction false} RunKeepsCoherent(s: ConfirmState, events: seq<Event>)
    requires Coherent(s)
    ensures Coherent(Run(s, events))
    decreases |events|
  {
    if |events| > 0 {
      ApplyKeepsCoherent(s, events[0]);
      RunKeepsCoherent(Apply(s, events[0]), events[1..]);
    }
  }

  /** On every state the screen can reach, confirming an open dialog sends a
      request, never takes the role handler's early return, and targets the staged
      user whichever handler runs. */
  lemma ReachableConfirmTargetsStagedUser(events: seq<Event>, reply: Reply)
    ensures var s := Run(Initial, events);
            s.isOpen ==>
              Confirm(s, reply).request.Some? &&
              Confirm(s, reply).request.value.userId == s.userId
  {
    RunKeepsCoherent(Initial, events);
  }

  /** The create-user form as react-hook-form hands it over. */
  datatype InsertForm = InsertForm(name: string, email: string, password: string, confirmPassword: string)

  /** The schema's failures. */
  datatype FieldError = EmailInvalid | PasswordTooShort | PasswordMismatch

  /** The form inputs that can show an error message. */
  datatype Field = EmailField | PasswordField | ConfirmPasswordField

  /** The messages the form shows, keyed by the input they appear under. The
      password match is refined onto the confirmation input. */
  function FieldMessages(errors: set<FieldError>): (shown: map<Field, string>)
    ensures EmailField in shown <==> EmailInvalid in errors
    ensures PasswordField in shown <==> PasswordTooShort in errors
    ensures ConfirmPasswordField in shown <==> PasswordMismatch in errors
    ensures EmailField in shown ==> shown[EmailField] == "E-mail inválido."
    ensures PasswordField in shown ==> shown[PasswordField] == "A senha precisa ter pelo menos 3 dígitos."
    ensures ConfirmPasswordField in shown ==> shown[ConfirmPasswordField] == "As senhas não conferem"
  {
    (if EmailInvalid in errors then map[EmailField := "E-mail inválido."] else map[]) +
    (if PasswordTooShort in errors then map[PasswordField := "A senha precisa ter pelo menos 3 dígitos."] else map[]) +
    (if PasswordMismatch in errors then map[ConfirmPasswordField := "As senhas não conferem"] else map[])
  }

  /** The create request; the screen always creates users with role id 2. */
  datatype NewUser = NewUser(email: string, name: string, password: string, roleId: int)

  datatype Validation = Accepted(user: NewUser) | Rejected(errors: set<FieldError>)

  /** `insertFormSchema`. The e-mail check belongs to the validation library, so
      its verdict is a parameter. */
  function ValidateInsert(form: InsertForm, emailWellFormed: bool): (v: Validation)
    ensures v.Accepted? <==> emailWellFormed && |form.password| >= 3 && form.password == form.confirmPassword
    ensures v.Accepted? ==> v.user == NewUser(form.email, form.name, form.password, 2)
    ensures v.Rejected? ==>
              (EmailInvalid in v.errors <==> !emailWellFormed) &&
              (PasswordTooShort in v.errors <==> |form.password| < 3) &&
              (PasswordMismatch in v.errors <==> form.password != form.confirmPassword)
  {
    var errors :=
      (if emailWellFormed then {} else {EmailInvalid}) +
      (if |form.password| >= 3 then {} else {PasswordTooShort}) +
      (if form.password == form.confirmPassword then {} else {PasswordMismatch});
    if errors == {} then Accepted(NewUser(form.email, form.name, form.password, 2))
    else Rejected(errors)
  }

  /** What submitting the create form does. */
  datatype InsertOutcome = InsertOutcome(
    request: Option<NewUser>, shown: map<Field, string>, toasts: seq<Toast>, formClosed: bool, reloads: nat)

  /** `handleSubmit(handleForm)`: a rejected form sends nothing; an accepted one
      always raises exactly one toast, and only status 200 resets and closes the
      form and reloads the roster. */
  function SubmitInsert(form: InsertForm, emailWellFormed: bool, reply: Reply): (o: InsertOutcome)
    ensures o.request.Some? <==> ValidateInsert(form, emailWellFormed).Accepted?
    ensures o.request.Some? ==> o.request.value.roleId == 2 && o.shown == map[] && |o.toasts| == 1
    ensures o.request.Some? ==> o.request.value == ValidateInsert(form, emailWellFormed).user
    ensures o.request.None? ==> o.toasts == [] && !o.formClosed && o.reloads == 0 && o.shown != map[]
    ensures o.request.None? ==>
              o.shown == FieldMessages(ValidateInsert(form, emailWellFormed).errors)
    ensures o.formClosed <==> o.request.Some? && IsOk(reply)
    ensures o.reloads == if o.formClosed then 1 else 0
    ensures o.request.Some? && reply.Responded? ==>
              o.toasts[0] == Toast(reply.message, if reply.status == 200 then Success else Error)
    ensures o.request.Some? && reply.Threw? ==> o.toasts[0] == Toast(reply.message, Error)
  {
    match ValidateInsert(form, emailWellFormed)
    case Rejected(errors) => InsertOutcome(None, FieldMessages(errors), [], false, 0)
    case Accepted(user) =>
      match reply
      case Threw(message) => InsertOutcome(Some(user), map[], [Toast(message, Error)], false, 0)
      case Responded(status, message) =>
        if status == 200 then InsertOutcome(Some(user), map[], [Toast(message, Success)], true, 1)
        else InsertOutcome(Some(user), map[], [Toast(message, Error)], false, 0)
  }
}
