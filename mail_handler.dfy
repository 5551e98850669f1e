/** The Mail Handler page (MailHandler.jsx): pick a saved list, pick a template, map the first
    name, last name and email columns, check that the email column really holds addresses, then
    merge the template once per row, advancing a progress counter. */
module MailHandler {
  import opened Base
  import opened Text
  import opened Records
  import opened Template
  import opened MailTemplates
  import opened ListPage

  /** `/^\S+@\S+\.\S+$/`: no white space, an `@` after at least one character, then at least
      one character, a `.`, and at least one more character. */
  predicate EmailPattern(s: string) {
    && NoSpace(s)
    && exists a, d :: 0 < a && a + 1 < d && d + 1 < |s| && s[a] == '@' && s[d] == '.'
  }

  /** The test as a direct search: the first `@` after the first character, then a `.` in the
      part that leaves a character on both sides. */
  function EmailCheck(s: string): (r: bool) {
    && NoSpace(s)
    && |s| >= 2 && '@' in s[1..]
    && var a := 1 + IndexOf(s[1..], '@');
      a + 2 <= |s| - 1 && '.' in s[a + 2..|s| - 1]
  }

  /** The search accepts exactly the strings the pattern describes. */
  lemma EmailCheckMatches(s: string)
    ensures EmailCheck(s) <==> EmailPattern(s)
  {
    if EmailPattern(s) {
      var a, d :| 0 < a && a + 1 < d && d + 1 < |s| && s[a] == '@' && s[d] == '.';
      assert s[1..][a - 1] == '@';
      var a0 := 1 + IndexOf(s[1..], '@');
      assert a0 <= a;
      assert s[a0 + 2..|s| - 1][d - a0 - 2] == '.';
    }
    if EmailCheck(s) {
      var a := 1 + IndexOf(s[1..], '@');
      var t := s[a + 2..|s| - 1];
      var d := a + 2 + IndexOf(t, '.');
      assert s[a] == '@' && s[d] == '.';
    }
  }

  /** `(row[email] || "").trim()`. */
  function MappedAddress(row: Record, column: string): string {
    Trim(Get(row, column).GetOr(""))
  }

  /** The test `data.find` applies to each row: the trimmed value under the email column does
      not have the shape of an address. */
  function BadRow(column: string): Record -> bool {
    row => !EmailCheck(MappedAddress(row, column))
  }

  /** Row by row, the search and the pattern agree. */
  lemma AllRowsMatch(data: seq<Record>, column: string)
    ensures (forall k :: 0 <= k < |data| ==> EmailCheck(MappedAddress(data[k], column)))
      <==> (forall k :: 0 <= k < |data| ==> EmailPattern(MappedAddress(data[k], column)))
  {
    forall k | 0 <= k < |data| {
      EmailCheckMatches(MappedAddress(data[k], column));
    }
  }

  /** A mapping is set when it names a column: `null` and the empty string are falsy. */
  predicate Mapped(column: Option<string>) {
    column.Some? && column.value != ""
  }

  /** `validateEmailSelection`: the email column is mapped and every row's trimmed value under it
      has the shape of an address. */
  function ValidateEmailSelection(data: seq<Record>, email: Option<string>): (ok: bool)
    ensures ok <==> Mapped(email) && forall k :: 0 <= k < |data| ==> EmailPattern(MappedAddress(data[k], email.value))
  {
    if Mapped(email) then
      FindIndexSpec(data, BadRow(email.value), 0);
      AllRowsMatch(data, email.value);
      FindIndex(data, BadRow(email.value)).None?
    else false
  }

  /** `mapped` for one row: the mapped cells, the empty string for a missing cell, and an empty
      last name when no last-name column is mapped. */
  function MergeFields(row: Record, firstName: string, lastName: Option<string>, email: string): Merge {
    Merge(
      Get(row, firstName).GetOr(""),
      if Mapped(lastName) then Get(row, lastName.value).GetOr("") else "",
      Get(row, email).GetOr(""))
  }

  /** One processed row: the address it goes to and the merged subject and body. */
  datatype OutgoingEmail = OutgoingEmail(to: string, subject: string, body: string)

  function Compose(row: Record, tpl: EmailTemplate, firstName: string, lastName: Option<string>, email: string): OutgoingEmail {
    var m := MergeFields(row, firstName, lastName, email);
    OutgoingEmail(m.email, Fill(tpl.subject, m), Fill(tpl.body, m))
  }

  /** The emails a send produces: one per row, in row order. */
  function Outbox(rows: seq<Record>, tpl: EmailTemplate, firstName: string, lastName: Option<string>, email: string): (r: seq<OutgoingEmail>)
    ensures |r| == |rows|
    ensures forall k :: 0 <= k < |rows| ==> r[k] == Compose(rows[k], tpl, firstName, lastName, email)
  {
    seq(|rows|, k requires 0 <= k < |rows| => Compose(rows[k], tpl, firstName, lastName, email))
  }

  /** After a successful validation, every email of the send goes to a value that, trimmed, has
      the shape of an address. */
  lemma OutboxAddressesValid(rows: seq<Record>, tpl: EmailTemplate, firstName: string, lastName: Option<string>, email: string)
    requires ValidateEmailSelection(rows, Some(email))
    ensures forall k :: 0 <= k < |rows| ==>
      EmailPattern(Trim(Outbox(rows, tpl, firstName, lastName, email)[k].to))
  {
    forall k | 0 <= k < |rows|
      ensures EmailPattern(Trim(Outbox(rows, tpl, firstName, lastName, email)[k].to))
    {
      assert EmailPattern(MappedAddress(rows[k], email));
    }
  }

  /** `Math.round((currentIndex / total) * 100)`, or 0 for an empty file: the nearest whole
      percentage, halves rounded up. */
  function Percent(current: nat, total: nat): (p: nat)
    ensures total == 0 ==> p == 0
    ensures total > 0 ==> 2 * total * p <= 200 * current + total < 2 * total * (p + 1)
  {
    if total == 0 then 0 else (200 * current + total) / (2 * total)
  }

  /** Cancelling a positive factor from a strict inequality. */
  lemma CancelFactor(k: nat, x: nat, y: nat)
    requires k > 0 && k * x < k * y
    ensures x < y
  {
    assert k * (y - x) == k * y - k * x;
  }

  /** Before and at the end of a send the percentage stays within 0..100, and it is 100 once
      every row is processed. */
  lemma PercentBounds(current: nat, total: nat)
    requires current <= total
    ensures Percent(current, total) <= 100
    ensures total > 0 && current == total ==> Percent(current, total) == 100
  {
    if total > 0 {
      var p := Percent(current, total);
      var k := 2 * total;
      assert k * p <= 200 * current + total;
      assert 200 * current + total <= 201 * total;
      assert k * 101 == 202 * total;
      CancelFactor(k, p, 101);
      if current == total {
        assert k * 100 == 200 * total;
        assert 200 * current + total < k * (p + 1);
        CancelFactor(k, 100, p + 1);
      }
    }
  }

  /** The percentage never goes down as rows are processed. */
  lemma PercentMonotone(c1: nat, c2: nat, total: nat)
    requires c1 <= c2
    ensures Percent(c1, total) <= Percent(c2, total)
  {
    if total > 0 {
      var p1, p2 := Percent(c1, total), Percent(c2, total);
      var k := 2 * total;
      assert k * p1 <= 200 * c1 + total <= 200 * c2 + total < k * (p2 + 1);
      CancelFactor(k, p1, p2 + 1);
    }
  }

  /** What a press of "Send Email" ends in. */
  datatype SendOutcome = IncompleteMapping | InvalidEmailMapping | Sent

  class MailSession {
    /** The saved lists, read from storage when the page mounts. */
    var lists: seq<SavedList>
    /** The selected list, by position: selecting compares list objects, so two lists with equal
        contents are still different selections. */
    var selectedFile: Option<nat>
    var templates: seq<EmailTemplate>
    var selectedTemplate: Option<EmailTemplate>
    var firstName: Option<string>
    var lastName: Option<string>
    var email: Option<string>
    var headers: seq<string>
    var isSending: bool
    var currentIndex: nat

    /** A template can only be chosen once a list is selected, and the selection is one of the
        lists. */
    predicate Valid()
      reads this
    {
      && (selectedFile.Some? ==> selectedFile.value < |lists|)
      && (selectedTemplate.Some? ==> selectedFile.Some?)
    }

    /** The rows of the selected list. */
    function Rows(): seq<Record>
      reads this
      requires Valid() && selectedFile.Some?
    {
      lists[selectedFile.value].data
    }

    /** `total`: the row count of the selected list, 0 when none is selected. */
    function Total(): nat
      reads this
      requires Valid()
    {
      if selectedFile.Some? then |Rows()| else 0
    }

    constructor (stored: seq<SavedList>)
      ensures Valid()
      ensures lists == stored && selectedFile == None && templates == [] && selectedTemplate == None
      ensures firstName == None && lastName == None && email == None && headers == []
      ensures !isSending && currentIndex == 0
    {
      lists := stored;
      selectedFile := None;
      templates := [];
      selectedTemplate := None;
      firstName := None;
      lastName := None;
      email := None;
      headers := [];
      isSending := false;
      currentIndex := 0;
    }

    /** `handleFileSelect`, with the header effect that follows it: choosing the list already
        selected does nothing; another list becomes the selection, the templates are offered,
        the template and all three mappings are reset, and the headers become the non-id keys of
        its first row. */
    method FileSelect(idx: nat)
      requires Valid() && idx < |lists|
      modifies this
      ensures Valid()
      ensures old(selectedFile) == Some(idx) ==> unchanged(this)
      ensures old(selectedFile) != Some(idx) ==>
        && selectedFile == Some(idx) && templates == TemplateList && selectedTemplate == None
        && firstName == None && lastName == None && email == None
        && headers == Columns(lists[idx].data)
        && lists == old(lists) && isSending == old(isSending) && currentIndex == old(currentIndex)
    {
      if selectedFile == Some(idx) {
        return;
      }
      var cols := Columns(lists[idx].data);
      selectedFile := Some(idx);
      templates := TemplateList;
      selectedTemplate := None;
      firstName := None;
      lastName := None;
      email := None;
      headers := cols;
    }

    /** Choosing template `t` of the offered ones. */
    method SelectTemplate(t: nat)
      requires Valid() && selectedFile.Some? && t < |templates|
      modifies this
      ensures Valid()
      ensures selectedTemplate == Some(old(templates)[t])
      ensures lists == old(lists) && selectedFile == old(selectedFile) && templates == old(templates)
      ensures firstName == old(firstName) && lastName == old(lastName) && email == old(email)
      ensures headers == old(headers) && isSending == old(isSending) && currentIndex == old(currentIndex)
    {
      selectedTemplate := Some(templates[t]);
    }

    /** Choosing one of the headers as the column for "First Name", "Last Name" or "Email";
        the three pickers are disabled until a template is chosen. */
    method MapColumn(field: MergeKey, column: string)
      requires Valid() && selectedTemplate.Some? && column in headers
      modifies this
      ensures Valid()
      ensures firstName == (if field == FirstNameKey then Some(column) else old(firstName))
      ensures lastName == (if field == LastNameKey then Some(column) else old(lastName))
      ensures email == (if field == EmailKey then Some(column) else old(email))
      ensures lists == old(lists) && selectedFile == old(selectedFile) && templates == old(templates)
      ensures selectedTemplate == old(selectedTemplate) && headers == old(headers)
      ensures isSending == old(isSending) && currentIndex == old(currentIndex)
    {
      match field
      case FirstNameKey => firstName := Some(column);
      case LastNameKey => lastName := Some(column);
      case EmailKey => email := Some(column);
    }

    /** The "Done" button of the progress overlay, shown once the counter reaches the row count:
        it closes the overlay and keeps every other field, the counter included. */
    method Done()
      requires Valid()
      modifies this
      ensures Valid()
      ensures !isSending
      ensures lists == old(lists) && selectedFile == old(selectedFile) && templates == old(templates)
      ensures selectedTemplate == old(selectedTemplate) && headers == old(headers)
      ensures firstName == old(firstName) && lastName == old(lastName) && email == old(email)
      ensures currentIndex == old(currentIndex)
    {
      isSending := false;
    }

    /** `handleSendEmail`, offered once a template is chosen. A send without a first-name or an
        email mapping is refused, and so is one whose email column holds a value that is not an
        address; in both cases no row is processed and nothing changes. Otherwise every row is
        merged, in order, into one email, and the counter ends at the row count. */
    method SendEmail() returns (outcome: SendOutcome, sent: seq<OutgoingEmail>)
      requires Valid() && selectedTemplate.Some?
      modifies this
      ensures Valid()
      ensures !Mapped(old(firstName)) || !Mapped(old(email)) ==>
        outcome == IncompleteMapping && sent == [] && unchanged(this)
      ensures Mapped(old(firstName)) && Mapped(old(email)) && !ValidateEmailSelection(old(Rows()), old(email)) ==>
        outcome == InvalidEmailMapping && sent == [] && unchanged(this)
      ensures Mapped(old(firstName)) && Mapped(old(email)) && ValidateEmailSelection(old(Rows()), old(email)) ==>
        && outcome == Sent
        && sent == Outbox(old(Rows()), old(selectedTemplate.value), old(firstName.value), old(lastName), old(email.value))
        && currentIndex == |old(Rows())| && !isSending
        && lists == old(lists) && selectedFile == old(selectedFile) && templates == old(templates)
        && selectedTemplate == old(selectedTemplate) && headers == old(headers)
        && firstName == old(firstName) && lastName == old(lastName) && email == old(email)
    {
      if !Mapped(firstName) || !Mapped(email) {
        return IncompleteMapping, [];
      }
      if !ValidateEmailSelection(Rows(), email) {
        return InvalidEmailMapping, [];
      }
      var tpl, fn, ln, em := selectedTemplate.value, firstName.value, lastName, email.value;
      isSending := true;
      sent := Deliver(Rows(), tpl, fn, ln, em);
      isSending := false;
      outcome := Sent;
    }

    /** The loop of `handleSendEmail`: each row in turn is merged into one email, and the
        counter moves past it. */
    method Deliver(rows: seq<Record>, tpl: EmailTemplate, firstName: string, lastName: Option<string>, email: string)
      returns (sent: seq<OutgoingEmail>)
      modifies this`currentIndex
      ensures sent == Outbox(rows, tpl, firstName, lastName, email)
      ensures currentIndex == |rows|
    {
      currentIndex := 0;
      sent := [];
      for i := 0 to |rows|
        invariant currentIndex == i
        invariant |sent| == i
        invariant forall k :: 0 <= k < i ==> sent[k] == Compose(rows[k], tpl, firstName, lastName, email)
      {
        sent := sent + [Compose(rows[i], tpl, firstName, lastName, email)];
        currentIndex := i + 1;
      }
    }
  }

  /** The three mapping pickers. */
  datatype MergeKey = FirstNameKey | LastNameKey | EmailKey
}
