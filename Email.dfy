/** The meeting e-mail of email_utils.py: the availability text built from
    the free-slot map (`times_formatted` in email_body), the sender's name
    as reformatted from Outlook's "Last, First", the default body, and the
    (to, subject, body) triple of email_template. */
module Email {
  import opened Text
  import opened Contacts
  import opened FreeSlots
  import opened Wrappers

  /** "- <range>" for each range of one day, in order. */
  function Bullets(ranges: seq<string>): (r: seq<string>)
    ensures |r| == |ranges|
    ensures forall j :: 0 <= j < |ranges| ==> r[j] == "- " + ranges[j]
  {
    seq(|ranges|, j requires 0 <= j < |ranges| => "- " + ranges[j])
  }

  /** One day's block: a blank line, "<day>:", then one bullet per range. */
  function DayBlock(d: DaySlots): string {
    "\n" + d.day + ":\n" + Join("\n", Bullets(d.ranges))
  }

  function DayBlocks(slots: seq<DaySlots>): (r: seq<string>)
    ensures |r| == |slots|
    ensures forall i :: 0 <= i < |slots| ==> r[i] == DayBlock(slots[i])
  {
    seq(|slots|, i requires 0 <= i < |slots| => DayBlock(slots[i]))
  }

  /** `times_formatted`: the day blocks, in the map's order, joined by newlines. */
  function Availability(slots: seq<DaySlots>): (text: string)
    ensures slots == [] ==> text == ""
  {
    Join("\n", DayBlocks(slots))
  }

  /** Appending a day to the map appends a newline and its block to the text. */
  lemma AvailabilityAppend(slots: seq<DaySlots>, d: DaySlots)
    requires slots != []
    ensures Availability(slots + [d]) == Availability(slots) + "\n" + DayBlock(d)
  {
    assert DayBlocks(slots + [d]) == DayBlocks(slots) + [DayBlock(d)];
    JoinAppend("\n", DayBlocks(slots), [DayBlock(d)]);
  }

  /** The text lists every free day's block, and within it every free range
      as a bullet. */
  lemma AvailabilityListsEverything(slots: seq<DaySlots>, i: int, j: int)
    requires 0 <= i < |slots| && 0 <= j < |slots[i].ranges|
    ensures Contains(Availability(slots), DayBlock(slots[i]))
    ensures Contains(Availability(slots), "- " + slots[i].ranges[j])
  {
    var d := slots[i];
    JoinContainsPart("\n", DayBlocks(slots), i);
    var bullets := Join("\n", Bullets(d.ranges));
    JoinContainsPart("\n", Bullets(d.ranges), j);
    ContainsInConcat("\n" + d.day + ":\n", bullets, "- " + d.ranges[j]);
    ContainsTransitive(Availability(slots), DayBlock(d), "- " + d.ranges[j]);
  }

  lemma ContainsTransitive(s: string, t: string, p: string)
    requires Contains(s, t) && Contains(t, p)
    ensures Contains(s, p)
  {
    var i :| MatchAt(s, t, i);
    var j :| MatchAt(t, p, j);
    forall n | 0 <= n < |p|
      ensures s[i + j..i + j + |p|][n] == p[n]
    {
      assert p[n] == t[j + n] == s[i..i + |t|][j + n];
    }
    assert s[i + j..i + j + |p|] == p;
    assert MatchAt(s, p, i + j);
  }

  /** A single day with a single range reads "\n<day>:\n- <range>". */
  lemma AvailabilityOneRange(day: string, range: string)
    ensures Availability([DaySlots(day, [range])]) == "\n" + day + ":\n- " + range
  {
    assert Bullets([range]) == ["- " + range];
    assert DayBlocks([DaySlots(day, [range])]) == [DayBlock(DaySlots(day, [range]))];
  }

  /** `p[0].upper() + p[1:].lower()`. */
  function Capitalized(p: string): (r: string)
    requires p != []
    ensures |r| == |p| && r[0] == UpperChar(p[0])
    ensures r[1..] == Lower(p[1..])
  {
    [UpperChar(p[0])] + Lower(p[1..])
  }

  function StripAll(parts: seq<string>): (r: seq<string>)
    ensures |r| == |parts|
    ensures forall i :: 0 <= i < |parts| ==> r[i] == Strip(parts[i])
  {
    seq(|parts|, i requires 0 <= i < |parts| => Strip(parts[i]))
  }

  /** get_outlook_user_details: split Outlook's user name at commas, strip
      the parts and print "First Last" with each capitalised. Python raises
      IndexError when there is no second part or either part is empty after
      stripping; that failure is None. */
  function ReformatUserName(raw: string): (r: Option<string>)
    ensures r.Some? <==>
      && |Split(raw, ",")| >= 2
      && Strip(Split(raw, ",")[0]) != ""
      && Strip(Split(raw, ",")[1]) != ""
    ensures r.Some? ==>
      r.value == Capitalized(Strip(Split(raw, ",")[1])) + " " + Capitalized(Strip(Split(raw, ",")[0]))
  {
    var parts := StripAll(Split(raw, ","));
    if |parts| < 2 || parts[1] == "" || parts[0] == "" then None
    else Some(Capitalized(parts[1]) + " " + Capitalized(parts[0]))
  }

  /** Outlook's "Last, First" becomes "First Last". */
  lemma ReformatLastFirst(last: string, first: string)
    requires last != [] && !IsSpace(last[0]) && !IsSpace(last[|last| - 1]) && ',' !in last
    requires first != [] && !IsSpace(first[0]) && !IsSpace(first[|first| - 1]) && ',' !in first
    ensures ReformatUserName(last + ", " + first) == Some(Capitalized(first) + " " + Capitalized(last))
  {
    assert last + ", " + first == last + "," + (" " + first);
    SplitAtComma(last, " " + first);
    StripStripped(last);
    StripLeadingSpace(first);
  }

  /** A name without a comma cannot be reformatted. */
  lemma ReformatNeedsComma(raw: string)
    requires ',' !in raw
    ensures ReformatUserName(raw).None?
  {
    CharAbsentNoMatch(raw, ",", |raw|);
    SplitNoMatch(raw, ",");
  }

  const Subject: string := "Morgan Stanley Investment Management Investor Meeting"

  const Greeting: string := "Dear "
  const Opening: string := "\n\nI hope this email finds you well. I work for Morgan Stanley Investment Management on the Emerging Markets Debt team and we're investors in "
  const Middle: string := ". We are interested in recent economic developments in the county and are looking to schedule a meeting.\nPlease find my availability below:\n"
  const Closing: string := "\n\nKindly let me know which of these works best for you, or if you have any alternative preferences.\n\nThank you and best regards,\n"

  /** The body used when no template is saved. It greets the recipient,
      names the country, carries the availability text and ends with the
      sender's name. */
  function DefaultBody(recipient: string, country: string, times: string, user: string): (body: string)
    ensures Greeting + recipient + "," <= body
    ensures |body| >= |user| && body[|body| - |user|..] == user
    ensures Contains(body, times) && Contains(body, country)
  {
    var letter := Greeting + (recipient + ("," + (Opening + (country + (Middle + (times + Closing))))));
    var body := letter + user;
    assert Contains(body, times) && Contains(body, country) by {
      LetterMentions(Greeting, recipient, Opening, country, Middle, times, Closing, user);
    }
    assert Greeting + recipient + "," <= body by {
      GreetingFirst(Greeting, recipient, Opening + (country + (Middle + (times + Closing))), user);
    }
    assert body[|letter|..] == user;
    body
  }

  lemma GreetingFirst(greeting: string, recipient: string, rest: string, user: string)
    ensures greeting + recipient + "," <= greeting + (recipient + ("," + rest)) + user
  {
    assert greeting + (recipient + ("," + rest)) + user == (greeting + recipient + ",") + (rest + user);
  }

  /** The default body's shape with its literal parts abstracted: it
      contains the country and the availability text. */
  lemma LetterMentions(greeting: string, recipient: string, opening: string, country: string,
                       middle: string, times: string, closing: string, user: string)
    ensures var letter := greeting + (recipient + ("," + (opening + (country + (middle + (times + closing))))));
      Contains(letter + user, times) && Contains(letter + user, country)
  {
    var tail := times + closing;
    ContainsSelf(times);
    ContainsInConcat(times, closing, times);
    ContainsInConcat(middle, tail, times);
    ContainsSelf(country);
    ContainsInConcat(country, middle + tail, country);
    ContainsInConcat(country, middle + tail, times);
    var rest := opening + (country + (middle + tail));
    ContainsInConcat(opening, country + (middle + tail), country);
    ContainsInConcat(opening, country + (middle + tail), times);
    ContainsInConcat(",", rest, times);
    ContainsInConcat(",", rest, country);
    ContainsInConcat(recipient, "," + rest, times);
    ContainsInConcat(recipient, "," + rest, country);
    var letter := greeting + (recipient + ("," + rest));
    ContainsInConcat(greeting, recipient + ("," + rest), times);
    ContainsInConcat(greeting, recipient + ("," + rest), country);
    ContainsInConcat(letter, user, times);
    ContainsInConcat(letter, user, country);
  }

  /** The message handed to Outlook: recipient address, subject and body. */
  datatype Draft = Draft(mailTo: string, subject: string, body: string)

  /** email_template with email_body inlined. The free-slot map, Outlook's
      user name and the saved template are inputs; `formatted` stands for
      the saved template after str.format. The triple exists exactly when
      the user name can be reformatted. */
  function EmailTemplate(contact: Contact, slots: seq<DaySlots>, rawUser: string,
                         template: string, formatted: string): (r: Option<Draft>)
    ensures r.Some? <==> ReformatUserName(rawUser).Some?
    ensures r.Some? ==> r.value.mailTo == contact.email && r.value.subject == Subject
    ensures r.Some? && template != "" ==> r.value.body == formatted
    ensures r.Some? && template == "" ==>
      && Greeting + contact.name + "," <= r.value.body
      && Contains(r.value.body, Availability(slots))
      && Contains(r.value.body, contact.country)
    ensures r.Some? && template == "" ==>
      r.value.body == DefaultBody(contact.name, contact.country, Availability(slots), ReformatUserName(rawUser).value)
  {
    var user := ReformatUserName(rawUser);
    if user.None? then None
    else
      var body := if template != "" then formatted
        else DefaultBody(contact.name, contact.country, Availability(slots), user.value);
      Some(Draft(contact.email, Subject, body))
  }
}
