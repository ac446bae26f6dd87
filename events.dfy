/**
 * The event records of server.js and the two handlers that change them:
 * coordinator-only creation (POST /api/events) and the student
 * registration check-and-append (POST /api/events/:eventId/register).
 * The document store is an in-memory map from event id to event object.
 */
module Events {

  type UserId = string
  type EventId = string

  const StudentRole: string := "student"
  const CoordinatorRole: string := "coordinator"

  /** One element of an event's `registrations` array. */
  datatype Registration = Registration(student: UserId, registrationDate: int, attended: bool)

  /**
   * `maxParticipants` as the handlers see it. A document created without the
   * field has it `undefined` (Unset): `length >= undefined` is false, so such
   * an event is never full. A JSON `null` compares and subtracts like 0, so it
   * is `Limit(0)`.
   */
  datatype Capacity = Limit(n: int) | Unset

  datatype Status = Upcoming | Ongoing | Completed

  /** The replies of the registration handler, in the order it checks them. */
  datatype RegisterOutcome = Forbidden | NotFound | Full | AlreadyRegistered | Registered

  datatype CreateOutcome = CreateForbidden | Created(id: EventId)

  /** The request-body fields the creation handler copies into the new event. */
  datatype EventForm = EventForm(
    title: string, description: string, date: int, time: string,
    maxParticipants: Capacity, venue: string, category: string)

  /** `event.registrations.length >= event.maxParticipants` */
  predicate IsFull(regs: seq<Registration>, cap: Capacity)
  {
    match cap
    case Limit(n) => |regs| >= n
    case Unset => false
  }

  /** `event.registrations.some(reg => reg.student.toString() === req.user.userId)`, scanning from the front. */
  function HasRegistration(regs: seq<Registration>, userId: UserId): (found: bool)
    ensures found <==> exists i :: 0 <= i < |regs| && regs[i].student == userId
  {
    if regs == [] then false
    else regs[0].student == userId || HasRegistration(regs[1..], userId)
  }

  /** The capacity invariant; an event whose limit is below zero may still hold no one. */
  predicate WithinCapacity(regs: seq<Registration>, cap: Capacity)
  {
    match cap
    case Limit(n) => regs == [] || |regs| <= n
    case Unset => true
  }

  /** The no-duplicate invariant: no student holds two registrations. */
  ghost predicate DistinctStudents(regs: seq<Registration>)
  {
    forall i, j :: 0 <= i < j < |regs| ==> regs[i].student != regs[j].student
  }

  /** What the registration handler answers for an event that was found. */
  function RegisterVerdict(role: string, regs: seq<Registration>, cap: Capacity, userId: UserId): (o: RegisterOutcome)
    ensures o != NotFound
    ensures o == Forbidden <==> role != StudentRole
    ensures o == Full <==> role == StudentRole && IsFull(regs, cap)
    ensures o == AlreadyRegistered <==>
      role == StudentRole && !IsFull(regs, cap) && exists i :: 0 <= i < |regs| && regs[i].student == userId
  {
    if role != StudentRole then Forbidden
    else if IsFull(regs, cap) then Full
    else if HasRegistration(regs, userId) then AlreadyRegistered
    else Registered
  }

  /** The registrations after the handler answered `outcome`. */
  function AfterRegister(regs: seq<Registration>, outcome: RegisterOutcome, userId: UserId, now: int): (after: seq<Registration>)
    ensures outcome != Registered ==> after == regs
    ensures outcome == Registered ==>
      |after| == |regs| + 1 && after[..|regs|] == regs && after[|regs|] == Registration(userId, now, false)
  {
    if outcome == Registered then regs + [Registration(userId, now, false)] else regs
  }

  /** A caller without the student role is refused before anything else is looked at. */
  lemma NonStudentForbidden(role: string, regs: seq<Registration>, cap: Capacity, userId: UserId, now: int)
    requires role != StudentRole
    ensures RegisterVerdict(role, regs, cap, userId) == Forbidden
    ensures AfterRegister(regs, Forbidden, userId, now) == regs
  {
  }

  /** Capacity is checked before the duplicate, so a registered student on a full event hears Full. */
  lemma FullOutranksDuplicate(regs: seq<Registration>, cap: Capacity, userId: UserId)
    requires IsFull(regs, cap) && HasRegistration(regs, userId)
    ensures RegisterVerdict(StudentRole, regs, cap, userId) == Full
  {
  }

  /** Every refusal leaves the registrations as they were; success appends exactly one fresh entry. */
  lemma VerdictEffect(role: string, regs: seq<Registration>, cap: Capacity, userId: UserId, now: int)
    ensures var o := RegisterVerdict(role, regs, cap, userId);
      var after := AfterRegister(regs, o, userId, now);
      (o != Registered ==> after == regs) &&
      (o == Registered <==> role == StudentRole && !IsFull(regs, cap) &&
                            forall i :: 0 <= i < |regs| ==> regs[i].student != userId) &&
      (o == Registered ==> |after| == |regs| + 1 && after[..|regs|] == regs &&
                           after[|regs|] == Registration(userId, now, false))
  {
  }

  /** With a non-negative limit the invariant is exactly "at most maxParticipants". */
  lemma WithinCapacityBound(regs: seq<Registration>, n: int)
    requires n >= 0
    ensures WithinCapacity(regs, Limit(n)) <==> |regs| <= n
  {
  }

  /** If `|registrations| <= maxParticipants` held before a registration attempt, it holds after. */
  lemma RegisterKeepsBound(role: string, regs: seq<Registration>, n: int, userId: UserId, now: int)
    requires |regs| <= n
    ensures |AfterRegister(regs, RegisterVerdict(role, regs, Limit(n), userId), userId, now)| <= n
  {
  }

  lemma RegisterKeepsCapacity(role: string, regs: seq<Registration>, cap: Capacity, userId: UserId, now: int)
    requires WithinCapacity(regs, cap)
    ensures WithinCapacity(AfterRegister(regs, RegisterVerdict(role, regs, cap, userId), userId, now), cap)
  {
  }

  lemma RegisterKeepsDistinct(role: string, regs: seq<Registration>, cap: Capacity, userId: UserId, now: int)
    requires DistinctStudents(regs)
    ensures DistinctStudents(AfterRegister(regs, RegisterVerdict(role, regs, cap, userId), userId, now))
  {
    if RegisterVerdict(role, regs, cap, userId) == Registered {
      var after := regs + [Registration(userId, now, false)];
      forall i, j | 0 <= i < j < |after| ensures after[i].student != after[j].student {
        assert after[i] == regs[i];
      }
    }
  }

  /** An event document. Only `registrations` is ever written after creation. */
  class Event {
    const title: string
    const description: string
    const date: int
    const time: string
    const coordinator: UserId
    const venue: string
    const category: string
    const maxParticipants: Capacity
    const status: Status
    var registrations: seq<Registration>

    ghost predicate Valid()
      reads this
    {
      WithinCapacity(registrations, maxParticipants) && DistinctStudents(registrations)
    }

    /** `Event.create({...})` with the schema defaults: no registrations, status upcoming. */
    constructor (form: EventForm, coordinator: UserId)
      ensures title == form.title && description == form.description && date == form.date
      ensures time == form.time && venue == form.venue && category == form.category
      ensures maxParticipants == form.maxParticipants && this.coordinator == coordinator
      ensures registrations == [] && status == Upcoming
      ensures Valid()
    {
      title, description, date, time := form.title, form.description, form.date, form.time;
      venue, category, maxParticipants := form.venue, form.category, form.maxParticipants;
      this.coordinator := coordinator;
      status := Upcoming;
      registrations := [];
    }

    /** The checks of the registration handler on a found event, then the push. */
    method Register(role: string, userId: UserId, now: int) returns (r: RegisterOutcome)
      modifies this`registrations
      ensures r == RegisterVerdict(role, old(registrations), maxParticipants, userId)
      ensures registrations == AfterRegister(old(registrations), r, userId, now)
      ensures r != Registered ==> registrations == old(registrations)
      ensures r == Registered ==> registrations == old(registrations) + [Registration(userId, now, false)]
      ensures old(Valid()) ==> Valid()
    {
      if Valid() {
        RegisterKeepsCapacity(role, registrations, maxParticipants, userId, now);
        RegisterKeepsDistinct(role, registrations, maxParticipants, userId, now);
      }
      if role != StudentRole {
        return Forbidden;
      }
      if IsFull(registrations, maxParticipants) {
        return Full;
      }
      var alreadyRegistered := HasRegistration(registrations, userId);
      if alreadyRegistered {
        return AlreadyRegistered;
      }
      registrations := registrations + [Registration(userId, now, false)];
      r := Registered;
    }
  }

  /** The events collection: documents by id, each a distinct object. */
  class EventStore {
    var events: map<EventId, Event>

    ghost predicate Valid()
      reads this, events.Values
    {
      (forall a, b :: a in events && b in events && a != b ==> events[a] != events[b]) &&
      (forall id :: id in events ==> events[id].Valid())
    }

    constructor ()
      ensures events == map[] && Valid()
    {
      events := map[];
    }

    /**
     * POST /api/events. `newId` is the identifier the store assigns to the
     * new document (an ObjectId, unique by construction).
     */
    method CreateEvent(role: string, userId: UserId, form: EventForm, newId: EventId) returns (r: CreateOutcome)
      requires Valid() && newId !in events
      modifies this
      ensures Valid()
      ensures role != CoordinatorRole ==> r == CreateForbidden && events == old(events)
      ensures role == CoordinatorRole ==>
        r == Created(newId) && newId in events && fresh(events[newId]) &&
        events == old(events)[newId := events[newId]]
      ensures role == CoordinatorRole ==>
        var e := events[newId];
        e.coordinator == userId && e.registrations == [] && e.status == Upcoming &&
        e.title == form.title && e.description == form.description && e.date == form.date &&
        e.time == form.time && e.venue == form.venue && e.category == form.category &&
        e.maxParticipants == form.maxParticipants
    {
      if role != CoordinatorRole {
        return CreateForbidden;
      }
      var e := new Event(form, userId);
      events := events[newId := e];
      r := Created(newId);
    }

    /** POST /api/events/:eventId/register, as one sequential step. */
    method Register(eventId: EventId, role: string, userId: UserId, now: int) returns (r: RegisterOutcome)
      requires Valid()
      modifies events.Values
      ensures Valid() && events == old(events)
      ensures role != StudentRole ==> r == Forbidden
      ensures role == StudentRole && eventId !in events ==> r == NotFound
      ensures eventId in events ==>
        r == RegisterVerdict(role, old(events[eventId].registrations), events[eventId].maxParticipants, userId) &&
        events[eventId].registrations == AfterRegister(old(events[eventId].registrations), r, userId, now)
      ensures forall id :: id in events && id != eventId ==> events[id].registrations == old(events[id].registrations)
    {
      if role != StudentRole {
        return Forbidden;
      }
      if eventId !in events {
        return NotFound;
      }
      var e := events[eventId];
      r := e.Register(role, userId, now);
    }
  }
}
