/**
 * scheduleEventReminder: the reminder is due one hour before the event; it
 * is scheduled only when that moment is still in the future, and when it
 * fires `sendNotification` is called once for every registered student. Times are integer
 * milliseconds since the epoch.
 */
module Reminders {
  import opened Wrappers
  import opened Events

  const HourMs: int := 60 * 60 * 1000

  /** The arguments of one `sendNotification` call: recipient, title and message. */
  datatype Notification = Notification(user: UserId, title: string, message: string)

  /** The delay handed to the timer, or None when the reminder time has passed. */
  function ReminderDelay(date: int, now: int): (delay: Option<int>)
    ensures delay.Some? <==> now < date - 3_600_000
    ensures delay.Some? ==> delay.value > 0 && now + delay.value == date - 3_600_000
  {
    var reminderTime := date - HourMs;
    var timeUntilReminder := reminderTime - now;
    if timeUntilReminder > 0 then Some(timeUntilReminder) else None
  }

  /** A reminder that is due later stays due when asked about earlier. */
  lemma ReminderDelayEarlier(date: int, now: int, earlier: int)
    requires earlier <= now && ReminderDelay(date, now).Some?
    ensures ReminderDelay(date, earlier).Some?
    ensures ReminderDelay(date, earlier).value == ReminderDelay(date, now).value + (now - earlier)
  {
  }

  function ReminderText(eventTitle: string, venue: string): (text: string)
  {
    eventTitle + " starts in 1 hour at " + venue
  }

  /** The `sendNotification` calls made when the timer fires, one per registration, in order. */
  method ReminderNotifications(e: Event) returns (sent: seq<Notification>)
    ensures |sent| == |e.registrations|
    ensures forall i :: 0 <= i < |sent| ==>
      sent[i] == Notification(e.registrations[i].student, "Event Reminder", ReminderText(e.title, e.venue))
    ensures e.Valid() ==> forall i, j :: 0 <= i < j < |sent| ==> sent[i].user != sent[j].user
  {
    sent := [];
    for k := 0 to |e.registrations|
      invariant |sent| == k
      invariant forall i :: 0 <= i < k ==>
        sent[i] == Notification(e.registrations[i].student, "Event Reminder", ReminderText(e.title, e.venue))
    {
      var registration := e.registrations[k];
      sent := sent + [Notification(registration.student, "Event Reminder", ReminderText(e.title, e.venue))];
    }
  }
}
