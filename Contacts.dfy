/** Contacts as the storage layer returns them, and the Manage Contacts
    page's filter (gui.py, ManageContactsPage.apply_filters). */
module Contacts {
  import opened Text

  /** One row of the contacts table: (id, name, position, email, country, contact_level). */
  datatype Contact = Contact(
    id: int,
    name: string,
    position: string,
    email: string,
    country: string,
    level: string)

  /** The five filter boxes' texts, as typed. */
  datatype Filters = Filters(
    name: string,
    position: string,
    email: string,
    country: string,
    level: string)

  /** A contact passes when each lowercased filter text occurs in the
      lowercased field it filters. */
  predicate Matches(f: Filters, c: Contact) {
    && Contains(Lower(c.name), Lower(f.name))
    && Contains(Lower(c.position), Lower(f.position))
    && Contains(Lower(c.email), Lower(f.email))
    && Contains(Lower(c.country), Lower(f.country))
    && Contains(Lower(c.level), Lower(f.level))
  }

  /** The contacts of cs that pass f, in their original order. */
  function Filtered(cs: seq<Contact>, f: Filters): (r: seq<Contact>)
    ensures |r| <= |cs|
  {
    if cs == [] then []
    else Filtered(cs[..|cs| - 1], f) + (if Matches(f, cs[|cs| - 1]) then [cs[|cs| - 1]] else [])
  }

  /** Filtering a concatenation filters each part and keeps them in order,
      so the filter never reorders contacts. */
  lemma {:induction false} FilteredAppend(a: seq<Contact>, b: seq<Contact>, f: Filters)
    ensures Filtered(a + b, f) == Filtered(a, f) + Filtered(b, f)
    decreases |b|
  {
    if b == [] {
      assert a + b == a;
    } else {
      assert (a + b)[..|a + b| - 1] == a + b[..|b| - 1];
      FilteredAppend(a, b[..|b| - 1], f);
    }
  }

  /** Exactly the passing contacts survive. */
  lemma {:induction false} FilteredMembers(cs: seq<Contact>, f: Filters)
    ensures forall c :: c in Filtered(cs, f) <==> c in cs && Matches(f, c)
  {
    if cs != [] {
      FilteredMembers(cs[..|cs| - 1], f);
      assert cs == cs[..|cs| - 1] + [cs[|cs| - 1]];
    }
  }

  /** With every filter box empty the table shows every contact. */
  lemma {:induction false} EmptyFiltersKeepAll(cs: seq<Contact>)
    ensures Filtered(cs, Filters("", "", "", "", "")) == cs
  {
    if cs != [] {
      var c := cs[|cs| - 1];
      ContainsEmpty(Lower(c.name));
      ContainsEmpty(Lower(c.position));
      ContainsEmpty(Lower(c.email));
      ContainsEmpty(Lower(c.country));
      ContainsEmpty(Lower(c.level));
      EmptyFiltersKeepAll(cs[..|cs| - 1]);
    }
  }

  /** The loop of apply_filters: walk all contacts and append each one that
      passes every filter. */
  method ApplyFilters(all: seq<Contact>, f: Filters) returns (filtered: seq<Contact>)
    ensures filtered == Filtered(all, f)
    ensures forall c :: c in filtered <==> c in all && Matches(f, c)
  {
    var nameFilter := Lower(f.name);
    var posFilter := Lower(f.position);
    var emailFilter := Lower(f.email);
    var countryFilter := Lower(f.country);
    var levelFilter := Lower(f.level);
    filtered := [];
    for i := 0 to |all|
      invariant filtered == Filtered(all[..i], f)
    {
      var contact := all[i];
      assert all[..i + 1][..i] == all[..i];
      if Contains(Lower(contact.name), nameFilter)
        && Contains(Lower(contact.position), posFilter)
        && Contains(Lower(contact.email), emailFilter)
        && Contains(Lower(contact.country), countryFilter)
        && Contains(Lower(contact.level), levelFilter)
      {
        filtered := filtered + [contact];
      }
    }
    assert all[..|all|] == all;
    FilteredMembers(all, f);
  }
}
