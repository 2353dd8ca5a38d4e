/**
 * `LeadScraperWorkflow`: `_clean_phone`, the batch filter `_filter_new_leads`
 * and `_enrich_leads`. A candidate is new when it has a phone and a title and
 * neither its cleaned phone nor its lower-cased title is already known; the
 * known keys grow as candidates are accepted, so earlier duplicates win.
 */
module Workflow {
  import opened Wrappers
  import opened Seqs
  import opened Text
  import opened EmailValidation
  import opened ContactExtraction

  /** The value of one key of a dataset item: absent, JSON `null`, a string, or any other
      JSON value (a number, a boolean, a list or an object) with its Python truthiness. */
  datatype Field = Absent | Null | Str(text: string) | Other(truthy: bool)

  /** A field that is absent, `null` or a string. */
  type TextField = f: Field | !f.Other? witness Absent

  /** The keys of a scraped place record that the filter reads. */
  datatype ScrapedItem = ScrapedItem(title: Field, phone: Field, address: TextField, website: TextField)

  /** The lead dictionary built for an accepted item; `address` and `website` are
      `None` when the item carried `null` there. */
  datatype Lead = Lead(title: string, phone: string, address: Option<string>, website: Option<string>,
                       email: string, instagram: string, facebook: string, linkedin: string)

  /** `_clean_phone`: `phone.replace("+", "").replace(" ", "")`. */
  function CleanPhone(phone: string): (r: string)
    ensures forall x :: x in r <==> x in phone && x != '+' && x != ' '
    ensures multiset(r) == multiset(phone)['+' := 0][' ' := 0]
  {
    RemoveChar(RemoveChar(phone, '+'), ' ')
  }

  /** Cleaning works piece by piece, so the digits keep their order. */
  lemma CleanPhoneConcat(a: string, b: string)
    ensures CleanPhone(a + b) == CleanPhone(a) + CleanPhone(b)
  {
    RemoveCharConcat(a, b, '+');
    RemoveCharConcat(RemoveChar(a, '+'), RemoveChar(b, '+'), ' ');
  }

  /** On one character: `+` and space are dropped, everything else is kept. */
  lemma CleanPhoneSingle(x: char)
    ensures CleanPhone([x]) == if x == '+' || x == ' ' then [] else [x]
  {
    RemoveCharSingle(x, '+');
    if x == '+' {
      assert RemoveChar([], ' ') == [];
    } else {
      RemoveCharSingle(x, ' ');
    }
  }

  /** Cleaning is idempotent, so a phone stored by the workflow is its own key. */
  lemma CleanPhoneIdempotent(phone: string)
    ensures CleanPhone(CleanPhone(phone)) == CleanPhone(phone)
  {
  }

  /** `item.get("title", "").strip()`, with a `null` or non-string title read as missing. */
  function TitleOf(item: ScrapedItem): string {
    match item.title
    case Str(t) => Strip(t)
    case _ => ""
  }

  /** `item.get("phone")` is truthy, and a string: a non-empty string. */
  predicate HasPhone(item: ScrapedItem) {
    item.phone.Str? && item.phone.text != ""
  }

  /** `item.get(key, "")` */
  function GetOrEmpty(f: TextField): Option<string> {
    if f.Absent? then Some("") else if f.Null? then None else Some(f.text)
  }

  /** `if phone and title`: the item can be a lead at all. */
  predicate Eligible(item: ScrapedItem) {
    HasPhone(item) && TitleOf(item) != ""
  }

  /** The `lead_data` dictionary the item becomes if it is accepted. */
  function LeadOf(item: ScrapedItem): Lead {
    var phone := if item.phone.Str? then CleanPhone(item.phone.text) else "";
    Lead(TitleOf(item), phone, GetOrEmpty(item.address), GetOrEmpty(item.website), "", "", "", "")
  }

  /** What the filter sees of an item: whether it qualifies, and the lead it would become.
      The lead's phone and lower-cased title are the item's two keys. */
  datatype Candidate = Candidate(eligible: bool, lead: Lead)

  function CandidateOf(item: ScrapedItem): Candidate {
    Candidate(Eligible(item), LeadOf(item))
  }

  function Candidates(items: seq<ScrapedItem>): (cs: seq<Candidate>)
    ensures |cs| == |items|
  {
    Map(items, CandidateOf)
  }

  /** The candidate is accepted against the keys known so far. */
  predicate Takes(c: Candidate, phones: set<string>, names: set<string>) {
    c.eligible && c.lead.phone !in phones && Lower(c.lead.title) !in names
  }

  /** The key sets the leads contribute once accepted. */
  function PhonesOf(leads: seq<Lead>): set<string> {
    if leads == [] then {} else {leads[0].phone} + PhonesOf(leads[1..])
  }

  function NamesOf(leads: seq<Lead>): set<string> {
    if leads == [] then {} else {Lower(leads[0].title)} + NamesOf(leads[1..])
  }

  /** The single pass over the batch, the key sets growing with every accepted lead. */
  function Select(cs: seq<Candidate>, phones: set<string>, names: set<string>): seq<Lead>
    decreases |cs|
  {
    if cs == [] then []
    else if Takes(cs[0], phones, names) then
      [cs[0].lead] + Select(cs[1..], phones + {cs[0].lead.phone}, names + {Lower(cs[0].lead.title)})
    else
      Select(cs[1..], phones, names)
  }

  /** `existing_phones`: every known phone that is not `None`, cleaned. */
  function PhoneSet(existingPhones: seq<Option<string>>): set<string> {
    set i | 0 <= i < |existingPhones| && existingPhones[i].Some? :: CleanPhone(existingPhones[i].value)
  }

  /** `existing_names`: every known name that is not blank, stripped and lower-cased. */
  function NameSet(existingNames: seq<Option<string>>): set<string> {
    set i | 0 <= i < |existingNames| && existingNames[i].Some? && Strip(existingNames[i].value) != []
      :: Lower(Strip(existingNames[i].value))
  }

  /** The leads `_filter_new_leads` returns for the sheet's known names and phones. */
  function NewLeads(scraped: seq<ScrapedItem>, existingNames: seq<Option<string>>,
                    existingPhones: seq<Option<string>>): seq<Lead>
  {
    Select(Candidates(scraped), PhoneSet(existingPhones), NameSet(existingNames))
  }

  /** `_filter_new_leads`, the known keys given as the sheet's Name and Phone cells. */
  method FilterNewLeads(scraped: seq<ScrapedItem>, existingNames: seq<Option<string>>,
                        existingPhones: seq<Option<string>>) returns (newLeads: seq<Lead>)
    ensures newLeads == NewLeads(scraped, existingNames, existingPhones)
  {
    var phones := PhoneSet(existingPhones);
    var names := NameSet(existingNames);
    newLeads := [];
    var i := 0;
    while i < |scraped|
      invariant 0 <= i <= |scraped|
      invariant newLeads + Select(Candidates(scraped)[i..], phones, names) == NewLeads(scraped, existingNames, existingPhones)
    {
      var item := scraped[i];
      FilterStep(scraped, i, phones, names, newLeads, NewLeads(scraped, existingNames, existingPhones));
      var title := TitleOf(item);
      if HasPhone(item) && title != [] {
        var cleanPhone := CleanPhone(item.phone.text);
        var normalizedName := Lower(title);
        if cleanPhone !in phones && normalizedName !in names {
          var leadData := Lead(title, cleanPhone, GetOrEmpty(item.address), GetOrEmpty(item.website),
                               "", "", "", "");
          newLeads := newLeads + [leadData];
          phones := phones + {cleanPhone};
          names := names + {normalizedName};
        }
      }
      i := i + 1;
    }
  }

  /** The loop invariant of the filter survives one item. */
  lemma FilterStep(scraped: seq<ScrapedItem>, i: nat, phones: set<string>, names: set<string>,
                   newLeads: seq<Lead>, total: seq<Lead>)
    requires i < |scraped|
    requires newLeads + Select(Candidates(scraped)[i..], phones, names) == total
    ensures var lead := LeadOf(scraped[i]);
      if Eligible(scraped[i]) && lead.phone !in phones && Lower(lead.title) !in names then
        (newLeads + [lead]) + Select(Candidates(scraped)[i + 1..], phones + {lead.phone}, names + {Lower(lead.title)}) == total
      else
        newLeads + Select(Candidates(scraped)[i + 1..], phones, names) == total
  {
    var cs := Candidates(scraped)[i..];
    var item := scraped[i];
    assert cs[0] == CandidateOf(item) && cs[1..] == Candidates(scraped)[i + 1..];
    var lead := LeadOf(item);
    if Takes(cs[0], phones, names) {
      var rest := Select(cs[1..], phones + {lead.phone}, names + {Lower(lead.title)});
      assert Select(cs, phones, names) == [lead] + rest;
      assert newLeads + ([lead] + rest) == (newLeads + [lead]) + rest;
    }
  }

  // ---------------------------------------------------------------------------
  // What the filter promises.
  // ---------------------------------------------------------------------------

  /** A key is in `PhonesOf(leads)` / `NamesOf(leads)` exactly when some lead carries it. */
  lemma {:induction false} KeysOfLeads(leads: seq<Lead>)
    ensures forall x :: x in PhonesOf(leads) <==> exists k :: 0 <= k < |leads| && leads[k].phone == x
    ensures forall x :: x in NamesOf(leads) <==> exists k :: 0 <= k < |leads| && Lower(leads[k].title) == x
    decreases |leads|
  {
    if leads != [] {
      KeysOfLeads(leads[1..]);
      forall x | x in PhonesOf(leads) ensures exists k :: 0 <= k < |leads| && leads[k].phone == x {
        if x != leads[0].phone {
          assert x in PhonesOf(leads[1..]);
          var k :| 0 <= k < |leads[1..]| && leads[1..][k].phone == x;
          assert leads[k + 1].phone == x;
        }
      }
      forall x | x in NamesOf(leads) ensures exists k :: 0 <= k < |leads| && Lower(leads[k].title) == x {
        if x != Lower(leads[0].title) {
          assert x in NamesOf(leads[1..]);
          var k :| 0 <= k < |leads[1..]| && Lower(leads[1..][k].title) == x;
          assert Lower(leads[k + 1].title) == x;
        }
      }
      forall k | 0 < k < |leads| ensures leads[k].phone in PhonesOf(leads) && Lower(leads[k].title) in NamesOf(leads) {
        assert leads[1..][k - 1] == leads[k];
      }
    }
  }

  /** Selecting over `a + b` is selecting over `a`, then over `b` with the keys of `a`'s leads added. */
  lemma {:induction false} SelectSplit(a: seq<Candidate>, b: seq<Candidate>, phones: set<string>, names: set<string>)
    ensures var ra := Select(a, phones, names);
      Select(a + b, phones, names) == ra + Select(b, phones + PhonesOf(ra), names + NamesOf(ra))
    decreases |a|
  {
    if a == [] {
      assert a + b == b;
      assert phones + {} == phones && names + {} == names;
    } else {
      assert (a + b)[0] == a[0] && (a + b)[1..] == a[1..] + b;
      var c := a[0];
      if Takes(c, phones, names) {
        var p', n' := phones + {c.lead.phone}, names + {Lower(c.lead.title)};
        SelectSplit(a[1..], b, p', n');
        var ra := Select(a, phones, names);
        assert ra[1..] == Select(a[1..], p', n');
        assert phones + PhonesOf(ra) == p' + PhonesOf(ra[1..]);
        assert names + NamesOf(ra) == n' + NamesOf(ra[1..]);
      } else {
        SelectSplit(a[1..], b, phones, names);
      }
    }
  }

  /** None of the leads carries a key that was already known. */
  predicate KeysFresh(leads: seq<Lead>, phones: set<string>, names: set<string>) {
    forall k :: 0 <= k < |leads| ==> leads[k].phone !in phones && Lower(leads[k].title) !in names
  }

  /** No two of the leads share a phone or a lower-cased title. */
  predicate KeysDistinct(leads: seq<Lead>) {
    forall j, k :: 0 <= j < k < |leads| ==> leads[j].phone != leads[k].phone && Lower(leads[j].title) != Lower(leads[k].title)
  }

  /** No two selected leads share a phone or a lower-cased title, and none collides with a
      key that was already known. */
  lemma {:induction false} SelectedKeysUnique(cs: seq<Candidate>, phones: set<string>, names: set<string>)
    ensures KeysFresh(Select(cs, phones, names), phones, names)
    ensures KeysDistinct(Select(cs, phones, names))
    decreases |cs|
  {
    if cs != [] {
      var c := cs[0];
      if Takes(c, phones, names) {
        var p', n' := phones + {c.lead.phone}, names + {Lower(c.lead.title)};
        SelectedKeysUnique(cs[1..], p', n');
        var rest := Select(cs[1..], p', n');
        var r := Select(cs, phones, names);
        assert r == [c.lead] + rest;
        forall k | 0 < k < |r|
          ensures r[k] == rest[k - 1] && r[k].phone !in p' && Lower(r[k].title) !in n'
        {
        }
        forall j, k | 0 < j < k < |r|
          ensures r[j].phone != r[k].phone && Lower(r[j].title) != Lower(r[k].title)
        {
          assert r[j] == rest[j - 1] && r[k] == rest[k - 1];
        }
      } else {
        SelectedKeysUnique(cs[1..], phones, names);
        assert Select(cs, phones, names) == Select(cs[1..], phones, names);
      }
    }
  }

  /** Selected leads are eligible candidates' leads, in the candidates' own order. */
  lemma {:induction false} SelectedInOrder(cs: seq<Candidate>, phones: set<string>, names: set<string>)
    returns (idx: seq<nat>)
    ensures var r := Select(cs, phones, names);
      |idx| == |r|
      && (forall k :: 0 <= k < |idx| ==> idx[k] < |cs| && cs[idx[k]].eligible && r[k] == cs[idx[k]].lead)
      && (forall j, k :: 0 <= j < k < |idx| ==> idx[j] < idx[k])
    decreases |cs|
  {
    if cs == [] {
      idx := [];
    } else {
      var c := cs[0];
      var tail := cs[1..];
      if Takes(c, phones, names) {
        var rest := SelectedInOrder(tail, phones + {c.lead.phone}, names + {Lower(c.lead.title)});
        idx := [0] + seq(|rest|, k requires 0 <= k < |rest| => rest[k] + 1);
        forall k | 0 < k < |idx| ensures idx[k] == rest[k - 1] + 1 && cs[idx[k]] == tail[rest[k - 1]] {
        }
      } else {
        var rest := SelectedInOrder(tail, phones, names);
        idx := seq(|rest|, k requires 0 <= k < |rest| => rest[k] + 1);
        forall k | 0 <= k < |idx| ensures cs[idx[k]] == tail[rest[k]] {
        }
      }
    }
  }

  /** Once the keys of the selected leads are known, nothing is selected again. */
  lemma {:induction false} SelectNothingWhenCovered(cs: seq<Candidate>, phones: set<string>, names: set<string>,
                                                    phones': set<string>, names': set<string>)
    requires phones + PhonesOf(Select(cs, phones, names)) <= phones'
    requires names + NamesOf(Select(cs, phones, names)) <= names'
    ensures Select(cs, phones', names') == []
    decreases |cs|
  {
    if cs != [] {
      var c := cs[0];
      if Takes(c, phones, names) {
        var p, n := phones + {c.lead.phone}, names + {Lower(c.lead.title)};
        var r := Select(cs, phones, names);
        assert r[1..] == Select(cs[1..], p, n);
        assert c.lead.phone in phones' && Lower(c.lead.title) in names';
        SelectNothingWhenCovered(cs[1..], p, n, phones', names');
      } else {
        SelectNothingWhenCovered(cs[1..], phones, names, phones', names');
      }
    }
  }

  // ---------------------------------------------------------------------------
  // The same facts for `_filter_new_leads` on the scraped items.
  // ---------------------------------------------------------------------------

  /** The acceptance rule: item `i` is accepted exactly when it has a phone and a title,
      its cleaned phone is neither in the sheet nor taken by a lead accepted before it,
      and the same holds of its stripped, lower-cased title. */
  lemma AcceptanceRule(scraped: seq<ScrapedItem>, existingNames: seq<Option<string>>,
                       existingPhones: seq<Option<string>>, i: nat)
    requires i < |scraped|
    ensures var before := NewLeads(scraped[..i], existingNames, existingPhones);
      var item := scraped[i];
      NewLeads(scraped[..i + 1], existingNames, existingPhones)
        == before + (if HasPhone(item) && TitleOf(item) != []
                        && CleanPhone(item.phone.text) !in PhoneSet(existingPhones) + PhonesOf(before)
                        && Lower(TitleOf(item)) !in NameSet(existingNames) + NamesOf(before)
                     then [LeadOf(item)] else [])
  {
    var item := scraped[i];
    var c := CandidateOf(item);
    var before := NewLeads(scraped[..i], existingNames, existingPhones);
    MapSnoc(scraped, i, CandidateOf);
    SelectSplit(Candidates(scraped[..i]), [c], PhoneSet(existingPhones), NameSet(existingNames));
    SelectOne(c, PhoneSet(existingPhones) + PhonesOf(before), NameSet(existingNames) + NamesOf(before));
    TakesItem(item, PhoneSet(existingPhones) + PhonesOf(before), NameSet(existingNames) + NamesOf(before));
  }

  /** The pass over a single candidate. */
  lemma SelectOne(c: Candidate, phones: set<string>, names: set<string>)
    ensures Select([c], phones, names) == if Takes(c, phones, names) then [c.lead] else []
  {
    assert [c][1..] == [];
  }

  /** An item's candidate is taken exactly when it has a phone and a title and neither key is known. */
  lemma TakesItem(item: ScrapedItem, phones: set<string>, names: set<string>)
    ensures Takes(CandidateOf(item), phones, names)
        <==> HasPhone(item) && TitleOf(item) != [] && CleanPhone(item.phone.text) !in phones
             && Lower(TitleOf(item)) !in names
  {
  }

  /** No two new leads share a cleaned phone or a normalised name, and none is already in the sheet. */
  lemma NewLeadsUnique(scraped: seq<ScrapedItem>, existingNames: seq<Option<string>>,
                       existingPhones: seq<Option<string>>)
    ensures KeysFresh(NewLeads(scraped, existingNames, existingPhones), PhoneSet(existingPhones), NameSet(existingNames))
    ensures KeysDistinct(NewLeads(scraped, existingNames, existingPhones))
  {
    SelectedKeysUnique(Candidates(scraped), PhoneSet(existingPhones), NameSet(existingNames));
  }

  /** The new leads are built from eligible scraped items, in scrape order; each has a non-empty
      stripped title, a phone holding neither `+` nor a space, and empty contact fields. */
  lemma NewLeadsFromItems(scraped: seq<ScrapedItem>, existingNames: seq<Option<string>>,
                          existingPhones: seq<Option<string>>) returns (idx: seq<nat>)
    ensures var r := NewLeads(scraped, existingNames, existingPhones);
      |idx| == |r|
      && (forall j, k :: 0 <= j < k < |idx| ==> idx[j] < idx[k])
      && (forall k :: 0 <= k < |idx| ==> idx[k] < |scraped| && Eligible(scraped[idx[k]]) && r[k] == LeadOf(scraped[idx[k]]))
      && (forall k :: 0 <= k < |r| ==>
            r[k].title != [] && Strip(r[k].title) == r[k].title
            && '+' !in r[k].phone && ' ' !in r[k].phone
            && r[k].email == "" && r[k].instagram == "" && r[k].facebook == "" && r[k].linkedin == "")
  {
    idx := SelectedInOrder(Candidates(scraped), PhoneSet(existingPhones), NameSet(existingNames));
    var r := NewLeads(scraped, existingNames, existingPhones);
    forall k | 0 <= k < |r| ensures r[k].title != [] && Strip(r[k].title) == r[k].title {
      StripIdempotent(scraped[idx[k]].title.text);
    }
  }

  /** The sheet cells the workflow writes for its leads: the title under Name, the phone under Phone. */
  function NameCells(leads: seq<Lead>): seq<Option<string>> {
    seq(|leads|, k requires 0 <= k < |leads| => Some(leads[k].title))
  }

  function PhoneCells(leads: seq<Lead>): seq<Option<string>> {
    seq(|leads|, k requires 0 <= k < |leads| => Some(leads[k].phone))
  }

  /** Appending cells to a column keeps every key it already gave. */
  lemma PhoneSetGrows(existingPhones: seq<Option<string>>, more: seq<Option<string>>)
    ensures PhoneSet(existingPhones) <= PhoneSet(existingPhones + more)
  {
    forall x | x in PhoneSet(existingPhones) ensures x in PhoneSet(existingPhones + more) {
      var i :| 0 <= i < |existingPhones| && existingPhones[i].Some? && CleanPhone(existingPhones[i].value) == x;
      assert (existingPhones + more)[i] == existingPhones[i];
    }
  }

  lemma NameSetGrows(existingNames: seq<Option<string>>, more: seq<Option<string>>)
    ensures NameSet(existingNames) <= NameSet(existingNames + more)
  {
    forall x | x in NameSet(existingNames) ensures x in NameSet(existingNames + more) {
      var i :| 0 <= i < |existingNames| && existingNames[i].Some? && Strip(existingNames[i].value) != []
               && Lower(Strip(existingNames[i].value)) == x;
      assert (existingNames + more)[i] == existingNames[i];
    }
  }

  /** Writing the leads' phones into the Phone column makes their keys known. */
  lemma PhoneCellsCovered(existingPhones: seq<Option<string>>, added: seq<Lead>)
    requires forall k :: 0 <= k < |added| ==> '+' !in added[k].phone && ' ' !in added[k].phone
    ensures PhoneSet(existingPhones) + PhonesOf(added) <= PhoneSet(existingPhones + PhoneCells(added))
  {
    var ps := existingPhones + PhoneCells(added);
    KeysOfLeads(added);
    PhoneSetGrows(existingPhones, PhoneCells(added));
    forall k | 0 <= k < |added| ensures added[k].phone in PhoneSet(ps) {
      PhoneCellKnown(existingPhones, added, k);
    }
  }

  lemma PhoneCellKnown(existingPhones: seq<Option<string>>, added: seq<Lead>, k: nat)
    requires k < |added| && '+' !in added[k].phone && ' ' !in added[k].phone
    ensures added[k].phone in PhoneSet(existingPhones + PhoneCells(added))
  {
    var ps := existingPhones + PhoneCells(added);
    var i := |existingPhones| + k;
    assert ps[i] == Some(added[k].phone);
    assert CleanPhone(added[k].phone) == added[k].phone;
  }

  /** Writing the leads' titles into the Name column makes their keys known. */
  lemma NameCellsCovered(existingNames: seq<Option<string>>, added: seq<Lead>)
    requires forall k :: 0 <= k < |added| ==> added[k].title != [] && Strip(added[k].title) == added[k].title
    ensures NameSet(existingNames) + NamesOf(added) <= NameSet(existingNames + NameCells(added))
  {
    var ns := existingNames + NameCells(added);
    KeysOfLeads(added);
    NameSetGrows(existingNames, NameCells(added));
    forall k | 0 <= k < |added| ensures Lower(added[k].title) in NameSet(ns) {
      NameCellKnown(existingNames, added, k);
    }
  }

  lemma NameCellKnown(existingNames: seq<Option<string>>, added: seq<Lead>, k: nat)
    requires k < |added| && added[k].title != [] && Strip(added[k].title) == added[k].title
    ensures Lower(added[k].title) in NameSet(existingNames + NameCells(added))
  {
    var ns := existingNames + NameCells(added);
    var i := |existingNames| + k;
    var t := added[k].title;
    assert ns[i] == Some(t);
    assert ns[i].Some? && Strip(ns[i].value) != [] && Lower(Strip(ns[i].value)) == Lower(t);
  }

  /** Re-running the filter on the same batch, once its new leads are in the sheet, adds nothing. */
  lemma RerunAddsNothing(scraped: seq<ScrapedItem>, existingNames: seq<Option<string>>,
                         existingPhones: seq<Option<string>>)
    ensures var added := NewLeads(scraped, existingNames, existingPhones);
      NewLeads(scraped, existingNames + NameCells(added), existingPhones + PhoneCells(added)) == []
  {
    var added := NewLeads(scraped, existingNames, existingPhones);
    var _ := NewLeadsFromItems(scraped, existingNames, existingPhones);
    PhoneCellsCovered(existingPhones, added);
    NameCellsCovered(existingNames, added);
    SelectNothingWhenCovered(Candidates(scraped), PhoneSet(existingPhones), NameSet(existingNames),
                             PhoneSet(existingPhones + PhoneCells(added)), NameSet(existingNames + NameCells(added)));
  }

  // ---------------------------------------------------------------------------
  // `_filter_new_leads` as written, on the `ExistingLead` records `read_leads` builds.
  // ---------------------------------------------------------------------------

  /** `ExistingLead`: only `Business` and `Phone` are declared; a sheet column named
      anything else (such as `Name`) is dropped when the record is built. */
  datatype ExistingLead = ExistingLead(business: Option<string>, phone: Option<string>)

  /** The exception that ends the call. */
  datatype Crash = MissingAttribute(name: string) | NoneHasNoStrip

  /** The exception one item raises in the loop as written: `.strip()` on a `null` or
      non-string title, or `_clean_phone`'s `.replace` on a truthy non-string phone once
      `if phone and title` lets the item through. */
  function ItemCrash(item: ScrapedItem): Option<Crash> {
    match item.title
    case Null => Some(NoneHasNoStrip)
    case Other(_) => Some(MissingAttribute("strip"))
    case _ =>
      if item.phone.Other? && item.phone.truthy && TitleOf(item) != "" then Some(MissingAttribute("replace"))
      else None
  }

  /** The exception of the first item that raises, in dataset order. */
  function FirstCrash(scraped: seq<ScrapedItem>): (r: Option<Crash>)
    ensures r.None? <==> forall i :: 0 <= i < |scraped| ==> ItemCrash(scraped[i]).None?
    ensures r.Some? ==> exists i :: 0 <= i < |scraped| && ItemCrash(scraped[i]) == r
                                    && forall j :: 0 <= j < i ==> ItemCrash(scraped[j]).None?
    decreases |scraped|
  {
    if scraped == [] then None
    else if ItemCrash(scraped[0]).Some? then ItemCrash(scraped[0])
    else
      var r := FirstCrash(scraped[1..]);
      assert forall i :: 1 <= i < |scraped| ==> scraped[i] == scraped[1..][i - 1];
      if r.Some? then
        var i :| 0 <= i < |scraped[1..]| && ItemCrash(scraped[1..][i]) == r
                 && forall j :: 0 <= j < i ==> ItemCrash(scraped[1..][j]).None?;
        assert ItemCrash(scraped[i + 1]) == r;
        r
      else r
  }

  /** The code as written: the name-set comprehension reads `lead.Name`, which raises
      for the first existing lead; then the loop raises at the first item `ItemCrash`
      names. Only when neither happens does it produce leads. */
  function FilterNewLeadsAsWritten(scraped: seq<ScrapedItem>, existing: seq<ExistingLead>): (r: Result<seq<Lead>, Crash>)
    ensures r.Success? <==> existing == [] && forall i :: 0 <= i < |scraped| ==> ItemCrash(scraped[i]).None?
    ensures existing == [] && r.Failure? ==> exists i :: 0 <= i < |scraped| && ItemCrash(scraped[i]) == Some(r.error)
                                                         && forall j :: 0 <= j < i ==> ItemCrash(scraped[j]).None?
  {
    if existing != [] then Failure(MissingAttribute("Name"))
    else
      match FirstCrash(scraped)
      case Some(c) => Failure(c)
      case None => Success(NewLeads(scraped, [], []))
  }

  /** The phones the as-written code does read: `lead.Phone` of every existing lead. */
  function PhonesOfExisting(existing: seq<ExistingLead>): seq<Option<string>> {
    seq(|existing|, k requires 0 <= k < |existing| => existing[k].phone)
  }

  /** Any sheet that already holds a lead makes the filter raise `AttributeError`. */
  lemma AnyExistingLeadCrashes(scraped: seq<ScrapedItem>, existing: seq<ExistingLead>)
    requires existing != []
    ensures FilterNewLeadsAsWritten(scraped, existing) == Failure(MissingAttribute("Name"))
  {
  }

  /** A place whose title is `null` makes the as-written filter raise (with this error
      when no earlier item raised); the corrected filter reads it as a missing title and skips it. */
  lemma NullTitleCrashes(scraped: seq<ScrapedItem>, i: nat)
    requires i < |scraped| && scraped[i].title == Null
    ensures FilterNewLeadsAsWritten(scraped, []).Failure?
    ensures (forall j :: 0 <= j < i ==> ItemCrash(scraped[j]).None?) ==>
      FilterNewLeadsAsWritten(scraped, []) == Failure(NoneHasNoStrip)
    ensures !Eligible(scraped[i])
    ensures forall l :: l in NewLeads(scraped, [], []) ==> l.title != []
  {
    CrashAt(scraped, i);
    var _ := NewLeadsFromItems(scraped, [], []);
  }

  /** A title that is a number, a boolean, a list or an object has no `strip`: the
      as-written filter raises, and the corrected filter skips the item. */
  lemma NonStringTitleCrashes(scraped: seq<ScrapedItem>, i: nat)
    requires i < |scraped| && scraped[i].title.Other?
    ensures FilterNewLeadsAsWritten(scraped, []).Failure?
    ensures (forall j :: 0 <= j < i ==> ItemCrash(scraped[j]).None?) ==>
      FilterNewLeadsAsWritten(scraped, []) == Failure(MissingAttribute("strip"))
    ensures !Eligible(scraped[i])
  {
    CrashAt(scraped, i);
  }

  /** A truthy phone that is not a string (a number, say) reaches `_clean_phone` once the
      title is non-blank, and has no `replace`: the as-written filter raises, and the
      corrected filter skips the item. */
  lemma NonStringPhoneCrashes(scraped: seq<ScrapedItem>, i: nat)
    requires i < |scraped| && scraped[i].title.Str? && Strip(scraped[i].title.text) != []
    requires scraped[i].phone == Other(true)
    ensures FilterNewLeadsAsWritten(scraped, []).Failure?
    ensures (forall j :: 0 <= j < i ==> ItemCrash(scraped[j]).None?) ==>
      FilterNewLeadsAsWritten(scraped, []) == Failure(MissingAttribute("replace"))
    ensures !Eligible(scraped[i])
  {
    assert TitleOf(scraped[i]) != "";
    assert ItemCrash(scraped[i]) == Some(MissingAttribute("replace"));
    CrashAt(scraped, i);
  }

  /** A falsy non-string phone (`0`, `false`, `[]`, `{}`) fails `if phone and title` before
      `_clean_phone` is reached: the item is skipped without an exception. */
  lemma FalsyNonStringPhoneSkipped(item: ScrapedItem)
    requires item.phone == Other(false) && (item.title.Absent? || item.title.Str?)
    ensures ItemCrash(item).None? && !Eligible(item)
  {
  }

  /** An item that raises makes the whole call raise, with its own error when it is the first. */
  lemma CrashAt(scraped: seq<ScrapedItem>, i: nat)
    requires i < |scraped| && ItemCrash(scraped[i]).Some?
    ensures FilterNewLeadsAsWritten(scraped, []).Failure?
    ensures (forall j :: 0 <= j < i ==> ItemCrash(scraped[j]).None?) ==>
      FilterNewLeadsAsWritten(scraped, []) == Failure(ItemCrash(scraped[i]).value)
  {
    var r := FilterNewLeadsAsWritten(scraped, []);
    if forall j :: 0 <= j < i ==> ItemCrash(scraped[j]).None? {
      var k :| 0 <= k < |scraped| && ItemCrash(scraped[k]) == Some(r.error)
               && forall j :: 0 <= j < k ==> ItemCrash(scraped[j]).None?;
      assert k == i;
    }
  }

  /** Wherever the as-written code returns, it returns what the corrected filter does. */
  lemma AsWrittenAgreesWhenItReturns(scraped: seq<ScrapedItem>, existing: seq<ExistingLead>)
    requires FilterNewLeadsAsWritten(scraped, existing).Success?
    ensures FilterNewLeadsAsWritten(scraped, existing).value
            == NewLeads(scraped, [], PhonesOfExisting(existing))
  {
  }

  // ---------------------------------------------------------------------------
  // `_enrich_leads`
  // ---------------------------------------------------------------------------

  /** A lead after `_enrich_leads`: one with a non-empty website gets the four contact
      fields the scraper found for it, `""` where nothing was found. */
  function Enriched(lead: Lead, fetch: string -> FetchResult): Lead {
    var website := lead.website.GetOr("");
    if website == [] then lead else WithContacts(lead, ScrapeWebsite(website, fetch))
  }

  /** Enrichment keeps a lead's name and phone. */
  lemma EnrichedKeys(lead: Lead, fetch: string -> FetchResult)
    ensures Enriched(lead, fetch).title == lead.title && Enriched(lead, fetch).phone == lead.phone
  {
  }

  /** `lead[key] = scraped_data.get(key) or ""` for the four contact keys. */
  function WithContacts(lead: Lead, found: Contacts): Lead {
    lead.(email := found.email.GetOr(""), instagram := found.instagram.GetOr(""),
          facebook := found.facebook.GetOr(""), linkedin := found.linkedin.GetOr(""))
  }

  /** `_enrich_leads`: the page fetch is the parameter `fetch`. */
  method EnrichLeads(leads: seq<Lead>, fetch: string -> FetchResult) returns (enrichedLeads: seq<Lead>)
    ensures |enrichedLeads| == |leads|
    ensures forall i :: 0 <= i < |leads| ==> enrichedLeads[i] == Enriched(leads[i], fetch)
  {
    enrichedLeads := [];
    for i := 0 to |leads|
      invariant |enrichedLeads| == i
      invariant forall j :: 0 <= j < i ==> enrichedLeads[j] == Enriched(leads[j], fetch)
    {
      var lead := leads[i];
      var website := lead.website.GetOr("");
      if website != [] {
        var scrapedData := ScrapeWebsite(website, fetch);
        lead := WithContacts(lead, scrapedData);
      }
      enrichedLeads := enrichedLeads + [lead];
    }
  }

  /** Enrichment touches only the contact fields, so the keys stay unique. */
  lemma EnrichKeepsIdentity(leads: seq<Lead>, fetch: string -> FetchResult)
    requires KeysDistinct(leads)
    ensures forall i :: 0 <= i < |leads| ==>
      var e := Enriched(leads[i], fetch);
      e.title == leads[i].title && e.phone == leads[i].phone
      && e.address == leads[i].address && e.website == leads[i].website
    ensures KeysDistinct(seq(|leads|, i requires 0 <= i < |leads| => Enriched(leads[i], fetch)))
  {
  }

  /** What an enriched new lead holds: contact fields stay empty without a website, an
      email is one `validate_format` accepts, and social links are canonical URLs. */
  lemma EnrichedContacts(lead: Lead, fetch: string -> FetchResult)
    requires lead.email == "" && lead.instagram == "" && lead.facebook == "" && lead.linkedin == ""
    ensures var e := Enriched(lead, fetch);
      (lead.website.None? || lead.website == Some("") ==> e == lead)
      && (e.email == "" || ValidateFormat(e.email))
      && (e.instagram == "" || StartsWith(e.instagram, "https://instagram.com/"))
      && (e.facebook == "" || StartsWith(e.facebook, "https://facebook.com/"))
      && (e.linkedin == "" || StartsWith(e.linkedin, "https://linkedin.com/company/"))
  {
    if lead.website.Some? && lead.website.value != [] {
      var w := lead.website.value;
      match fetch(WithScheme(w))
      case FetchFailed =>
      case Page(content) =>
        var c := ExtractContacts(content);
        if c.email.Some? { ExtractedEmailIsValid(content); }
        if c.instagram.Some? { PrefixStarts("https://instagram.com/", c.instagram.value); }
        if c.facebook.Some? { PrefixStarts("https://facebook.com/", c.facebook.value); }
        if c.linkedin.Some? { LinkedInAlwaysCompany(content); }
    }
  }

  lemma PrefixStarts(p: string, s: string)
    requires exists h :: s == p + h
    ensures StartsWith(s, p)
  {
    var h :| s == p + h;
    assert s[..|p|] == p;
  }
}
