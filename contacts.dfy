/** Classification of the contact entries of a business's detail page. */
module Contacts {
  import opened Wrappers
  import opened Text
  import opened Cards

  /** The first `<a>` of a contact entry: its `href` attribute, if set, and
      its text. */
  datatype Link = Link(href: Option<string>, text: string)

  /** One `<li>` of the contact list: the text of its first `<p>`, if any,
      and its first `<a>`, if any. */
  datatype ContactEntry = ContactEntry(paragraph: Option<string>, link: Option<Link>)

  /** What fetching a detail page returned: the status code, and the entries
      of its contact list, or `None` when the page has no contact list. */
  datatype Response = Response(status: int, section: Option<seq<ContactEntry>>)

  /** The four contact columns, in row order. */
  datatype Slot = Address | Phone | Email | Website

  function Index(slot: Slot): (i: nat)
    ensures i < 4
  {
    match slot
    case Address => 0
    case Phone => 1
    case Email => 2
    case Website => 3
  }

  /** All four contact fields unknown. */
  const NoContacts: seq<string> := [Unknown, Unknown, Unknown, Unknown]

  /** Where one entry goes and what it writes there, `None` for an entry
      that matches no marker; `KeyError` for a link without `href`. */
  function Classify(e: ContactEntry): Result<Option<(Slot, string)>, Exception> {
    if e.paragraph.Some? then
      Success(Some((Address, e.paragraph.value)))
    else if e.link.None? then
      Success(None)
    else
      match e.link.value.href
      case None => Failure(KeyError)
      case Some(h) =>
        var text := e.link.value.text;
        if Contains(h, "tel") then Success(Some((Phone, text)))
        else if Contains(h, "mailto") then Success(Some((Email, text)))
        else if Contains(h, "http") then Success(Some((Website, text)))
        else Success(None)
  }

  /** The entry is a link with no `href` and no `<p>`, whose subscript
      raises. */
  predicate Raises(e: ContactEntry) {
    Classify(e).Failure?
  }

  /** The slot an entry is classified into, if any. */
  predicate Targets(e: ContactEntry, slot: Slot) {
    Classify(e).Success? && Classify(e).value.Some? && Classify(e).value.value.0 == slot
  }

  /** The text an entry writes into its slot. */
  function Written(e: ContactEntry): string
    requires Classify(e).Success? && Classify(e).value.Some?
  {
    Classify(e).value.value.1
  }

  /** The contact fields after processing `es` in order, starting from
      `details`. */
  function Fill(details: seq<string>, es: seq<ContactEntry>): (r: Result<seq<string>, Exception>)
    requires |details| == 4
    ensures r.Success? ==> |r.value| == 4
    decreases |es|
  {
    if es == [] then
      Success(details)
    else
      match Classify(es[0])
      case Failure(x) => Failure(x)
      case Success(None) => Fill(details, es[1..])
      case Success(Some((slot, text))) => Fill(details[Index(slot) := text], es[1..])
  }

  /** The contact fields a detail page yields: all unknown unless the status
      is 200 and the page has a contact list. */
  function ContactDetails(resp: Response): (r: Result<seq<string>, Exception>)
    ensures r.Success? ==> |r.value| == 4
  {
    if resp.status != 200 || resp.section.None? then
      Success(NoContacts)
    else
      Fill(NoContacts, resp.section.value)
  }

  /** Fills the four contact fields in place, entry by entry. */
  method ResolveContacts(resp: Response) returns (r: Result<seq<string>, Exception>)
    ensures r == ContactDetails(resp)
  {
    var details := new string[4](_ => Unknown);
    assert details[..] == NoContacts;
    if resp.status == 200 && resp.section.Some? {
      var contacts := resp.section.value;
      var i := 0;
      assert contacts[i..] == contacts;
      while i < |contacts|
        invariant 0 <= i <= |contacts|
        invariant Fill(NoContacts, contacts) == Fill(details[..], contacts[i..])
      {
        var e := contacts[i];
        assert contacts[i..][1..] == contacts[i + 1..];
        if e.paragraph.Some? {
          details[0] := e.paragraph.value;
        } else if e.link.Some? {
          var a := e.link.value;
          if a.href.None? {
            return Failure(KeyError);
          }
          var h := a.href.value;
          if Contains(h, "tel") {
            details[1] := a.text;
          } else if Contains(h, "mailto") {
            details[2] := a.text;
          } else if Contains(h, "http") {
            details[3] := a.text;
          }
        }
        i := i + 1;
      }
    }
    r := Success(details[..]);
  }

  /** An entry raises exactly when it has no `<p>` and its link has no
      `href`: a paragraph is read before any link is looked at. */
  lemma RaisesIff(e: ContactEntry)
    ensures Raises(e) <==> e.paragraph.None? && e.link.Some? && e.link.value.href.None?
  {
  }

  /** The page raises exactly when one of its entries is a link without
      `href`. */
  lemma {:induction false} FillRaisesIff(details: seq<string>, es: seq<ContactEntry>)
    requires |details| == 4
    ensures Fill(details, es).Failure? <==> exists i :: 0 <= i < |es| && Raises(es[i])
    decreases |es|
  {
    if es != [] {
      if !Raises(es[0]) {
        var d' := if Classify(es[0]).value.Some?
          then details[Index(Classify(es[0]).value.value.0) := Classify(es[0]).value.value.1]
          else details;
        FillRaisesIff(d', es[1..]);
        if exists i :: 0 <= i < |es| && Raises(es[i]) {
          var i :| 0 <= i < |es| && Raises(es[i]);
          assert es[1..][i - 1] == es[i];
        }
      }
    }
  }

  /** Resolving a detail page raises exactly when the request succeeded, the
      page has a contact list, and one of its entries is a link without
      `href`. */
  lemma ContactsRaiseIff(resp: Response)
    ensures ContactDetails(resp).Failure? <==>
      resp.status == 200 && resp.section.Some?
      && exists i :: 0 <= i < |resp.section.value| && Raises(resp.section.value[i])
  {
    if resp.status == 200 && resp.section.Some? {
      FillRaisesIff(NoContacts, resp.section.value);
    }
  }

  /** A slot that no entry targets keeps its starting value. */
  lemma {:induction false} FillKeepsUntargeted(details: seq<string>, es: seq<ContactEntry>, slot: Slot)
    requires |details| == 4 && Fill(details, es).Success?
    requires forall i :: 0 <= i < |es| ==> !Targets(es[i], slot)
    ensures Fill(details, es).value[Index(slot)] == details[Index(slot)]
    decreases |es|
  {
    if es != [] {
      var c := Classify(es[0]);
      var d' := if c.value.Some? then details[Index(c.value.value.0) := c.value.value.1] else details;
      assert d'[Index(slot)] == details[Index(slot)] by {
        if c.value.Some? { assert !Targets(es[0], slot); }
      }
      assert forall i :: 0 <= i < |es| - 1 ==> es[1..][i] == es[i + 1];
      FillKeepsUntargeted(d', es[1..], slot);
    }
  }

  /** A slot holds the text of the last entry that targets it. */
  lemma {:induction false} FillKeepsLastTargeted(details: seq<string>, es: seq<ContactEntry>, slot: Slot, i: nat)
    requires |details| == 4 && Fill(details, es).Success?
    requires i < |es| && Targets(es[i], slot)
    requires forall j :: i < j < |es| ==> !Targets(es[j], slot)
    ensures Fill(details, es).value[Index(slot)] == Written(es[i])
    decreases |es|
  {
    var c := Classify(es[0]);
    var d' := if c.value.Some? then details[Index(c.value.value.0) := c.value.value.1] else details;
    assert forall j :: 0 <= j < |es| - 1 ==> es[1..][j] == es[j + 1];
    if i == 0 {
      assert d'[Index(slot)] == Written(es[0]);
      FillKeepsUntargeted(d', es[1..], slot);
    } else {
      FillKeepsLastTargeted(d', es[1..], slot, i - 1);
    }
  }

  /** On a page that does not raise, a contact field holds the text of the
      last entry classified into it. */
  lemma SlotIsLastMatch(resp: Response, slot: Slot, i: nat)
    requires ContactDetails(resp).Success?
    requires resp.status == 200 && resp.section.Some?
    requires i < |resp.section.value| && Targets(resp.section.value[i], slot)
    requires forall j :: i < j < |resp.section.value| ==> !Targets(resp.section.value[j], slot)
    ensures ContactDetails(resp).value[Index(slot)] == Written(resp.section.value[i])
  {
    FillKeepsLastTargeted(NoContacts, resp.section.value, slot, i);
  }

  /** On a page that does not raise, a contact field that no entry is
      classified into stays "Unknown". */
  lemma UntargetedSlotIsUnknown(resp: Response, slot: Slot)
    requires ContactDetails(resp).Success?
    requires resp.status == 200 && resp.section.Some?
    requires forall i :: 0 <= i < |resp.section.value| ==> !Targets(resp.section.value[i], slot)
    ensures ContactDetails(resp).value[Index(slot)] == Unknown
  {
    FillKeepsUntargeted(NoContacts, resp.section.value, slot);
  }

  /** A failed request, or a page without a contact list, gives four
      "Unknown" fields and never raises. */
  lemma UnreachableContactsAreUnknown(resp: Response)
    requires resp.status != 200 || resp.section.None?
    ensures ContactDetails(resp) == Success([Unknown, Unknown, Unknown, Unknown])
  {
  }

  /** A `<p>` makes the entry an address, whatever link it also holds. */
  lemma ParagraphWins(text: string, link: Option<Link>)
    ensures Classify(ContactEntry(Some(text), link)) == Success(Some((Address, text)))
  {
  }

  /** The markers are checked in order, as substrings of the `href`. */
  lemma LinkPrecedence(h: string, text: string)
    ensures var c := Classify(ContactEntry(None, Some(Link(Some(h), text))));
      && (Contains(h, "tel") ==> c == Success(Some((Phone, text))))
      && (!Contains(h, "tel") && Contains(h, "mailto") ==> c == Success(Some((Email, text))))
      && (!Contains(h, "tel") && !Contains(h, "mailto") && Contains(h, "http")
          ==> c == Success(Some((Website, text))))
      && (!Contains(h, "tel") && !Contains(h, "mailto") && !Contains(h, "http") ==> c == Success(None))
  {
  }

  /** Because the tests are substring tests, a website whose address
      contains "tel" is filed as a phone number. */
  lemma HotelSiteIsPhone()
    ensures Classify(ContactEntry(None, Some(Link(Some("http://hotel.x"), "hotel.x"))))
         == Success(Some((Phone, "hotel.x")))
  {
    var h := "http://hotel.x";
    assert OccursAt(h, "tel", 9);
    ContainsAt(h, "tel", 9);
  }
}
