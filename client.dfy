/**
 * The browser client's form checks and the values it derives for each
 * event card. The user record is what the client keeps after logging in;
 * a missing record or field is None, as `undefined` is in the client.
 */
module Client {
  import opened Wrappers
  import opened Events
  import opened Login

  const MinPasswordLength: int := 6
  const MaxFlyerBytes: int := 2 * 1024 * 1024

  // ---- Sign-up form ----

  datatype SignupCheck = PasswordsDiffer | PasswordTooShort | SignupOk

  /** The two sign-up checks, mismatch first, then length. */
  function CheckSignup(password: string, confirmPassword: string): (r: SignupCheck)
    ensures r == PasswordsDiffer <==> password != confirmPassword
    ensures r == PasswordTooShort <==> password == confirmPassword && |password| < 6
    ensures r == SignupOk <==> password == confirmPassword && |password| >= 6
  {
    if password != confirmPassword then PasswordsDiffer
    else if |password| < MinPasswordLength then PasswordTooShort
    else SignupOk
  }

  /** The year field follows the role selector: shown and required for students only. */
  datatype YearField = YearField(display: string, required: bool)

  function YearFieldFor(selectedRole: string): (f: YearField)
    ensures f.required <==> selectedRole == "student"
    ensures f.display == if f.required then "block" else "none"
  {
    var isStudent := selectedRole == StudentRole;
    YearField(if isStudent then "block" else "none", isStudent)
  }

  // ---- Login form ----

  /** A form value that is present and not the empty string. */
  predicate Filled(field: Option<string>)
  {
    field.Some? && field.value != ""
  }

  /** The login form is submitted only when email, password and role are all given. */
  function LoginFormComplete(email: Option<string>, password: Option<string>, role: Option<string>): (ok: bool)
    ensures !ok <==> email in {None, Some("")} || password in {None, Some("")} || role in {None, Some("")}
  {
    Filled(email) && Filled(password) && Filled(role)
  }

  /** What the client keeps after a successful login: `{ role: data.role, userId: data.userId }`. */
  datatype StoredUser = StoredUser(role: Option<string>, userId: Option<UserId>)

  function StoreUser(reply: LoginReply): (user: StoredUser)
    ensures user.role == reply.role && user.userId == reply.userId
  {
    StoredUser(reply.role, reply.userId)
  }

  // ---- Event creation form ----

  /** NoFlyer: no file chosen, so reading its size throws and the form reports a failure. */
  datatype FlyerCheck = NoFlyer | FlyerTooLarge | FlyerOk

  function CheckFlyer(size: Option<nat>): (r: FlyerCheck)
    ensures r == NoFlyer <==> size.None?
    ensures r == FlyerTooLarge <==> size.Some? && size.value > 2097152
    ensures r == FlyerOk <==> size.Some? && size.value <= 2097152
  {
    match size
    case None => NoFlyer
    case Some(bytes) => if bytes > MaxFlyerBytes then FlyerTooLarge else FlyerOk
  }

  // ---- Event cards ----

  /** The parts of an event's JSON the card logic reads. */
  datatype EventCard = EventCard(coordinator: UserId, maxParticipants: Capacity,
                                 registrations: Option<seq<Registration>>)

  /** The JSON the server sends for a stored event always carries its registrations. */
  function ViewOf(e: Event): (c: EventCard)
    reads e
  {
    EventCard(e.coordinator, e.maxParticipants, Some(e.registrations))
  }

  /** `registrations?.length || 0` */
  function RegistrationCount(c: EventCard): (count: nat)
  {
    match c.registrations
    case Some(regs) => |regs|
    case None => 0
  }

  /** `maxParticipants - (registrations?.length || 0)`; None is the NaN of a missing limit. */
  function SpotsLeft(c: EventCard): (spots: Option<int>)
    ensures spots.None? <==> c.maxParticipants.Unset?
    ensures c.maxParticipants.Limit? && c.registrations.None? ==> spots == Some(c.maxParticipants.n)
    ensures c.maxParticipants.Limit? && c.registrations.Some? ==>
      spots == Some(c.maxParticipants.n - |c.registrations.value|)
  {
    match c.maxParticipants
    case Limit(n) => Some(n - RegistrationCount(c))
    case Unset => None
  }

  /** The card shows no spots left exactly when the server would answer a new student with Full. */
  lemma SpotsLeftAgreesWithServer(e: Event)
    ensures SpotsLeft(ViewOf(e)).None? ==> !IsFull(e.registrations, e.maxParticipants)
    ensures SpotsLeft(ViewOf(e)).Some? ==>
      (SpotsLeft(ViewOf(e)).value <= 0 <==> IsFull(e.registrations, e.maxParticipants))
    ensures e.Valid() && e.maxParticipants.Limit? && e.maxParticipants.n >= 0 ==>
      SpotsLeft(ViewOf(e)).Some? && SpotsLeft(ViewOf(e)).value >= 0
  {
    if e.Valid() && e.maxParticipants.Limit? && e.maxParticipants.n >= 0 {
      WithinCapacityBound(e.registrations, e.maxParticipants.n);
    }
  }

  /** `registrations?.some(r => r.student === user?.userId)` */
  function IsRegistered(c: EventCard, user: Option<StoredUser>): (b: bool)
    ensures b <==> (user.Some? && user.value.userId.Some? && c.registrations.Some? &&
                    exists i :: 0 <= i < |c.registrations.value| && c.registrations.value[i].student == user.value.userId.value)
  {
    match (user, c.registrations)
    case (Some(StoredUser(_, Some(id))), Some(regs)) => HasRegistration(regs, id)
    case _ => false
  }

  /** `user?.role === 'coordinator' && event.coordinator === user?.userId` */
  function IsOwnEvent(c: EventCard, user: Option<StoredUser>): (own: bool)
    ensures own <==> user.Some? && user.value.role == Some("coordinator") && user.value.userId == Some(c.coordinator)
  {
    match user
    case Some(StoredUser(role, id)) => role == Some(CoordinatorRole) && id == Some(c.coordinator)
    case None => false
  }

  /** The registered mark on the card matches the server's registrations for that user. */
  lemma RegisteredMarkAgreesWithServer(e: Event, role: Option<string>, userId: UserId)
    ensures IsRegistered(ViewOf(e), Some(StoredUser(role, Some(userId)))) <==> HasRegistration(e.registrations, userId)
    ensures IsRegistered(ViewOf(e), Some(StoredUser(role, Some(userId)))) ==>
      RegisterVerdict(StudentRole, e.registrations, e.maxParticipants, userId) in {Full, AlreadyRegistered}
  {
  }

  datatype CardButton = RegisterButton(disabled: bool, text: string) | DeleteButton

  function RegisterButtonFor(registered: bool): (b: CardButton)
  {
    RegisterButton(registered, if registered then "Registered" else "Register Now")
  }

  /** The card of the displayEvents inside the page handler: always a register button. */
  function DetailCardAction(c: EventCard, user: Option<StoredUser>): (a: CardButton)
    ensures a.RegisterButton?
    ensures a.disabled <==> IsRegistered(c, user)
    ensures a.text == "Registered" <==> IsRegistered(c, user)
    ensures a.text != "Registered" ==> a.text == "Register Now"
  {
    RegisterButtonFor(IsRegistered(c, user))
  }

  /** The card of the top-level displayEvents: Delete on one's own event, otherwise register. */
  function CardAction(c: EventCard, user: Option<StoredUser>): (a: CardButton)
    ensures a.DeleteButton? <==> IsOwnEvent(c, user)
    ensures a.RegisterButton? ==> (a.disabled <==> IsRegistered(c, user))
    ensures a.RegisterButton? ==> a.text == if IsRegistered(c, user) then "Registered" else "Register Now"
  {
    if !IsOwnEvent(c, user) then RegisterButtonFor(IsRegistered(c, user)) else DeleteButton
  }

  // ---- Login reply and the stored user ----

  /**
   * As written, the login reply has no role or id, so the stored user has
   * neither: no card ever shows the user as registered or as the owner,
   * even for the event the user is registered for or created.
   */
  lemma AsWrittenReplyHidesUser(r: LoginOutcome, c: EventCard)
    requires r.SignedIn?
    ensures var user := Some(StoreUser(ReplyAsWritten(r)));
      !IsRegistered(c, user) && !IsOwnEvent(c, user) && CardAction(c, user) == RegisterButton(false, "Register Now")
  {
  }

  /** A student registered for an event is still offered "Register Now" under the reply as written. */
  lemma AsWrittenRegisteredStudentOfferedRegister()
    ensures var r := SignedIn(User("s1", "s1@college.edu", "hash", StudentRole), false);
      var c := EventCard("c1", Limit(10), Some([Registration("s1", 0, false)]));
      HasRegistration(c.registrations.value, r.user.id) &&
      CardAction(c, Some(StoreUser(ReplyAsWritten(r)))) == RegisterButton(false, "Register Now")
  {
    var c := EventCard("c1", Limit(10), Some([Registration("s1", 0, false)]));
    assert c.registrations.value[0].student == "s1";
  }

  /** With the role and id in the reply, the card reflects the server's state for the signed-in user. */
  lemma ReplyShowsUser(r: LoginOutcome, e: Event)
    requires r.SignedIn?
    ensures var user := Some(StoreUser(Reply(r)));
      (IsRegistered(ViewOf(e), user) <==> HasRegistration(e.registrations, r.user.id)) &&
      (IsOwnEvent(ViewOf(e), user) <==> r.user.role == CoordinatorRole && e.coordinator == r.user.id)
  {
  }

  /**
   * With the corrected login reply (Login.Reply): after a successful
   * registration the page refreshes through the inner displayEvents, whose
   * card then shows a disabled "Registered" button. Under the reply as
   * written it stays "Register Now" (AsWrittenReplyHidesUser).
   */
  lemma RegisteredDetailCardAfterSuccess(r: LoginOutcome, coordinator: UserId, regs: seq<Registration>,
                                         cap: Capacity, now: int)
    requires r.SignedIn?
    requires RegisterVerdict(ClaimsOf(r.user).role, regs, cap, ClaimsOf(r.user).userId) == Registered
    ensures var c := EventCard(coordinator, cap, Some(AfterRegister(regs, Registered, r.user.id, now)));
      DetailCardAction(c, Some(StoreUser(Reply(r)))) == RegisterButton(true, "Registered")
  {
    var after := AfterRegister(regs, Registered, r.user.id, now);
    assert after[|regs|].student == r.user.id;
  }

  /** With the corrected login reply (Login.Reply), a successful registration shows the top-level card as registered. */
  lemma RegisteredCardAfterSuccess(r: LoginOutcome, coordinator: UserId, regs: seq<Registration>,
                                   cap: Capacity, now: int)
    requires r.SignedIn?
    requires RegisterVerdict(ClaimsOf(r.user).role, regs, cap, ClaimsOf(r.user).userId) == Registered
    ensures var c := EventCard(coordinator, cap, Some(AfterRegister(regs, Registered, r.user.id, now)));
      CardAction(c, Some(StoreUser(Reply(r)))) == RegisterButton(true, "Registered")
  {
    var after := AfterRegister(regs, Registered, r.user.id, now);
    assert after[|regs|].student == r.user.id;
  }
}
