/** The stateful part of the application: the stored data (database.py, as
    abstract state rather than SQL), the form actions of gui.py that write
    it, and MainWindow's notifier, which owns the `pushed_today` guard,
    reloads the contacts, picks one and records what happens to it. */
module Engine {
  import opened Wrappers
  import opened Text
  import opened Contacts
  import opened Selection
  import opened Calendar
  import opened DueClock
  import opened FreeSlots
  import opened Email

  /** The analytics table's event types: "selected" and "emailed". */
  datatype EventKind = Selected | Emailed

  /** One analytics row: (contact_id, event_type, country). */
  datatype Event = Event(contactId: int, kind: EventKind, country: string)

  /** What get_settings returns when no settings row exists: no day and
      "13:00". An empty list and an empty string are both falsy, so the
      notifier treats either as "no day stored". */
  const DefaultSetting: Setting := Setting("", "13:00")

  /** The form check of add_contact and save_contact: every field non-empty. */
  predicate FieldsFilled(name: string, position: string, email: string, country: string, level: string) {
    name != "" && position != "" && email != "" && country != "" && level != ""
  }

  /** The SQLite file: the contacts table (in rowid order), the next
      AUTOINCREMENT id, the single settings row, the country_priority table
      and the analytics table. */
  class Store {
    var contacts: seq<Contact>
    var nextId: int
    var saved: Option<Setting>
    var priorities: map<string, Priority>
    var events: seq<Event>

    /** Ids are positive, strictly increasing in table order and below the
        next id to be handed out; so no two contacts share an id. */
    ghost predicate Valid()
      reads this
    {
      && 1 <= nextId
      && (forall i :: 0 <= i < |contacts| ==> 1 <= contacts[i].id < nextId)
      && (forall i, j :: 0 <= i < j < |contacts| ==> contacts[i].id < contacts[j].id)
    }

    /** A freshly created database: every table empty. */
    constructor()
      ensures Valid()
      ensures contacts == [] && nextId == 1 && saved == None && priorities == map[] && events == []
    {
      contacts := [];
      nextId := 1;
      saved := None;
      priorities := map[];
      events := [];
    }

    /** get_settings: the stored row, or the default when there is none. */
    function GetSettings(): (s: Setting)
      reads this
      ensures saved.Some? ==> s == saved.value
      ensures saved.None? ==> s.frequency == "" && s.time == "13:00"
    {
      if saved.Some? then saved.value else DefaultSetting
    }

    /** add_contact_to_db: insert a row with the next AUTOINCREMENT id. */
    method AddContactToDb(name: string, position: string, email: string, country: string, level: string)
      returns (id: int)
      requires Valid()
      modifies this
      ensures Valid()
      ensures id == old(nextId) && nextId == id + 1
      ensures contacts == old(contacts) + [Contact(id, name, position, email, country, level)]
      ensures forall c :: c in old(contacts) ==> c.id < id
      ensures saved == old(saved) && priorities == old(priorities) && events == old(events)
    {
      id := nextId;
      contacts := contacts + [Contact(id, name, position, email, country, level)];
      nextId := nextId + 1;
    }

    /** update_contact_in_db: `UPDATE ... WHERE id = ?` rewrites the one row
        with that id, if any, in place. */
    method UpdateContactInDb(id: int, name: string, position: string, email: string, country: string, level: string)
      requires Valid()
      modifies this
      ensures Valid()
      ensures |contacts| == |old(contacts)|
      ensures forall i :: 0 <= i < |contacts| ==>
        contacts[i] == (if old(contacts)[i].id == id then Contact(id, name, position, email, country, level)
                        else old(contacts)[i])
      ensures nextId == old(nextId) && saved == old(saved) && priorities == old(priorities) && events == old(events)
    {
      contacts := seq(|contacts|, i requires 0 <= i < |contacts| reads this =>
        if contacts[i].id == id then Contact(id, name, position, email, country, level) else contacts[i]);
    }

    /** set_settings: delete every settings row, then insert one holding the
        days joined by commas and the time. */
    method SetSettings(frequency: seq<string>, time: string)
      modifies this
      ensures saved == Some(Setting(Join(",", frequency), time))
      ensures contacts == old(contacts) && nextId == old(nextId)
      ensures priorities == old(priorities) && events == old(events)
    {
      saved := None;
      saved := Some(Setting(Join(",", frequency), time));
    }

    /** set_country_priority: `INSERT OR REPLACE` on the unique country column. */
    method SetCountryPriority(country: string, priority: Priority)
      modifies this
      ensures priorities == old(priorities)[country := priority]
      ensures contacts == old(contacts) && nextId == old(nextId)
      ensures saved == old(saved) && events == old(events)
    {
      priorities := priorities[country := priority];
    }

    /** record_contact_event: append one analytics row. */
    method RecordContactEvent(contactId: int, country: string, kind: EventKind)
      modifies this
      ensures events == old(events) + [Event(contactId, kind, country)]
      ensures contacts == old(contacts) && nextId == old(nextId)
      ensures saved == old(saved) && priorities == old(priorities)
    {
      events := events + [Event(contactId, kind, country)];
    }
  }

  /** NewContactPage.add_contact: refuse the form unless every field is
      filled, otherwise insert the contact. */
  method AddContact(db: Store, name: string, position: string, email: string, country: string, level: string)
    returns (added: bool)
    requires db.Valid()
    modifies db
    ensures db.Valid()
    ensures added <==> FieldsFilled(name, position, email, country, level)
    ensures added ==> db.contacts == old(db.contacts) + [Contact(old(db.nextId), name, position, email, country, level)]
    ensures added ==> db.nextId == old(db.nextId) + 1
    ensures !added ==> db.contacts == old(db.contacts) && db.nextId == old(db.nextId)
    ensures db.saved == old(db.saved) && db.priorities == old(db.priorities) && db.events == old(db.events)
  {
    if !(name != "" && position != "" && email != "" && country != "" && level != "") {
      return false;
    }
    var _ := db.AddContactToDb(name, position, email, country, level);
    added := true;
  }

  /** EditContactDialog.save_contact: refuse the form unless every field is
      filled, otherwise rewrite the edited contact's row. */
  method SaveContact(db: Store, id: int, name: string, position: string, email: string, country: string, level: string)
    returns (saved: bool)
    requires db.Valid()
    modifies db
    ensures db.Valid()
    ensures saved <==> FieldsFilled(name, position, email, country, level)
    ensures !saved ==> db.contacts == old(db.contacts)
    ensures saved ==> |db.contacts| == |old(db.contacts)|
    ensures saved ==> forall i :: 0 <= i < |db.contacts| ==>
      db.contacts[i] == (if old(db.contacts)[i].id == id then Contact(id, name, position, email, country, level)
                         else old(db.contacts)[i])
    ensures db.nextId == old(db.nextId) && db.saved == old(db.saved)
    ensures db.priorities == old(db.priorities) && db.events == old(db.events)
  {
    if !(name != "" && position != "" && email != "" && country != "" && level != "") {
      return false;
    }
    db.UpdateContactInDb(id, name, position, email, country, level);
    saved := true;
  }

  /** SchedulerPage.set_frequency: the chosen day name (one of the seven
      combo box entries) and "HH:MM" from the two-digit hour and minute boxes
      become the stored schedule, which the notifier then reads back. */
  method SetFrequency(db: Store, day: int, hour: int, minute: int)
    requires 0 <= day < 7 && 0 <= hour < 24 && 0 <= minute < 60
    modifies db
    ensures db.GetSettings() == Setting(WeekdayNames[day], ClockText(hour, minute))
    ensures db.contacts == old(db.contacts) && db.nextId == old(db.nextId)
    ensures db.priorities == old(db.priorities) && db.events == old(db.events)
  {
    var frequency := WeekdayNames[day];
    var timeStr := TwoDigits(hour) + ":" + TwoDigits(minute);
    db.SetSettings([frequency], timeStr);
  }

  /** MainWindow: the timer-driven notifier. */
  class Notifier {
    const db: Store
    var pushedToday: bool
    var contacts: seq<Contact>

    constructor(db: Store)
      ensures this.db == db && !pushedToday && contacts == []
    {
      this.db := db;
      pushedToday := false;
      contacts := [];
    }

    /** refresh_contacts: reload the cached contacts. */
    method RefreshContacts()
      modifies this
      ensures contacts == db.contacts && pushedToday == old(pushedToday)
    {
      contacts := db.contacts;
    }

    /** show_notification_popup: record the "selected" event. */
    method ShowNotificationPopup(contact: Contact)
      modifies db
      ensures db.events == old(db.events) + [Event(contact.id, Selected, contact.country)]
      ensures db.contacts == old(db.contacts) && db.nextId == old(db.nextId)
      ensures db.saved == old(db.saved) && db.priorities == old(db.priorities)
    {
      db.RecordContactEvent(contact.id, contact.country, Selected);
    }

    /** The popup's Email button: build the e-mail, then record "emailed".
        email_template runs outside send_email's try block, so when it fails
        (here: the Outlook user name cannot be reformatted) the exception
        ends the handler before the event is recorded. Failures of the
        Outlook calls inside the try are caught and still record it. */
    method OnEmailClicked(contact: Contact, slots: seq<DaySlots>, rawUser: string,
                          template: string, formatted: string) returns (draft: Option<Draft>)
      modifies db
      ensures draft == EmailTemplate(contact, slots, rawUser, template, formatted)
      ensures draft.Some? ==> db.events == old(db.events) + [Event(contact.id, Emailed, contact.country)]
      ensures draft.None? ==> db.events == old(db.events)
      ensures db.contacts == old(db.contacts) && db.nextId == old(db.nextId)
      ensures db.saved == old(db.saved) && db.priorities == old(db.priorities)
    {
      draft := EmailTemplate(contact, slots, rawUser, template, formatted);
      if draft.Some? {
        db.RecordContactEvent(contact.id, contact.country, Emailed);
      }
    }

    /** show_notification: reload the contacts; with none, stop; otherwise
        group them by country, weight the countries, draw a country and then
        a contact of its first present level, and record the selection. The
        random draws are chosen nondeterministically within their ranges. */
    method ShowNotification() returns (chosen: Option<Contact>)
      modifies this, db
      ensures contacts == old(db.contacts) && pushedToday == old(pushedToday)
      ensures db.contacts == old(db.contacts) && db.nextId == old(db.nextId)
      ensures db.saved == old(db.saved) && db.priorities == old(db.priorities)
      ensures chosen.None? <==> contacts == []
      ensures chosen.None? ==> db.events == old(db.events)
      ensures chosen.Some? ==>
        && db.events == old(db.events) + [Event(chosen.value.id, Selected, chosen.value.country)]
        && exists r, k :: ValidDraws(contacts, db.priorities, r, k) && chosen.value == Choose(contacts, db.priorities, r, k)
    {
      contacts := db.contacts;
      if contacts == [] {
        return None;
      }
      var countries, groups := GroupByCountry(contacts);
      var weights := CountryWeights(countries, db.priorities);
      DrawsExist(contacts, db.priorities, 0);
      var r :| 0 <= r < Sum(weights);
      var i := PickIndex(weights, r);
      var selectedCountry := countries[i];
      assert selectedCountry == ChosenCountry(contacts, db.priorities, r);
      var candidates := groups[selectedCountry];
      DrawsExist(contacts, db.priorities, r);
      var k :| 0 <= k < |LevelPool(candidates)|;
      var selected := PickContact(candidates, k);
      assert ValidDraws(contacts, db.priorities, r, k) && selected == Choose(contacts, db.priorities, r, k);
      ShowNotificationPopup(selected);
      chosen := Some(selected);
    }

    /** schedule_notification, run by the timer: read the clock as
        "dddd,hh:mm" lowered and split; clear the guard at "00:00"; then,
        with the guard clear, fire when a day is stored, it is today and the
        stored time is now. */
    method OnTick(now: Moment) returns (fired: bool)
      requires ValidMoment(now)
      modifies this, db
      ensures fired == TickAt(old(pushedToday), now, old(db.GetSettings())).fires
      ensures pushedToday == TickAt(old(pushedToday), now, old(db.GetSettings())).pushedAfter
      ensures db.contacts == old(db.contacts) && db.nextId == old(db.nextId)
      ensures db.saved == old(db.saved) && db.priorities == old(db.priorities)
      ensures !fired ==> db.events == old(db.events) && contacts == old(contacts)
      ensures fired ==> contacts == db.contacts
      ensures fired && contacts == [] ==> db.events == old(db.events)
      ensures fired && contacts != [] ==> exists r, k ::
        && ValidDraws(contacts, db.priorities, r, k)
        && var c := Choose(contacts, db.priorities, r, k);
           db.events == old(db.events) + [Event(c.id, Selected, c.country)]
    {
      var dtNow := NowFields(now);
      var dateNow := dtNow[0];
      var timeNow := dtNow[1];
      if pushedToday {
        if timeNow == "00:00" {
          pushedToday := false;
        }
      }
      fired := false;
      if !pushedToday {
        var setting := db.GetSettings();
        if setting.frequency == "" {
          return;
        }
        var day := Lower(setting.frequency);
        if dateNow == day {
          if timeNow == setting.time {
            var chosen := ShowNotification();
            pushedToday := true;
            fired := true;
          }
        }
      }
    }
  }
}
