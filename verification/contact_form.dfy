/** The contact form's submit handler, cut at its one suspension point (the
    `await` on the transport) into a synchronous start and a completion, plus
    the payload it builds, the `form.reset()` it performs on success and the
    per-control event listeners lifted to the whole form. */
module ContactForm {
  import opened Wrappers
  import opened Validator
  import opened Fields

  /** The `button[type="submit"]`: its `disabled` property, its text and
      whether it carries the `loading` class. */
  datatype SubmitButton = SubmitButton(disabled: bool, caption: string, loading: bool)

  datatype NoticeKind = SuccessNotice | ErrorNotice

  /** What `showFormMessage` puts in the `#form-message` box: the kind (its
      class) and the text; a notice once shown is displayed. */
  datatype Notice = Notice(kind: NoticeKind, text: string)

  /** The part of the page the handler reads and writes: the form's controls in
      document order, the submit button if the form has one, whether the
      message box exists and what it currently shows. */
  datatype Page = Page(
    controls: seq<Control>,
    button: Option<SubmitButton>,
    hasMessageBox: bool,
    notice: Option<Notice>)

  /** The payload handed to the transport. `timestamp` comes from the clock and
      is an opaque input here. */
  datatype ContactRequest = ContactRequest(
    name: string,
    email: string,
    phone: string,
    address: string,
    projectType: string,
    description: string,
    wantSiteVisit: bool,
    timestamp: string)

  /** How the transport call ends: the awaited promise resolves or rejects. */
  datatype TransportOutcome = Delivered | Rejected

  /** What the handler holds across the `await`: the label it saw before
      replacing it, and the request it sent. */
  datatype Pending = Pending(originalLabel: string, request: ContactRequest)

  /** The synchronous start of the handler either throws (no submit button, or
      a control the payload needs is missing) leaving the page as it stands, or
      reaches the `await` with the request on its way. */
  datatype Start = Halted(page: Page) | Sending(page: Page, pending: Pending)

  /** One whole run of the handler: the page afterwards and the request given
      to the transport, if any. */
  datatype SubmitResult = SubmitResult(page: Page, sent: Option<ContactRequest>)

  const BusyLabel: string := "Sender..."
  const SuccessText: string := "Takk for førespurnaden din! Eg vil kontakte deg så snart som mogleg, vanlegvis innan éin arbeidsdag."
  const FailureText: string := "Beklagar, noko gjekk galt. Prøv igjen eller ring oss direkte."

  /** `form.querySelector('#' + id)`: the first control in document order with
      that id. */
  function Find(controls: seq<Control>, id: string): (r: Option<Control>)
    ensures r.None? <==> forall k :: 0 <= k < |controls| ==> controls[k].id != id
    ensures r.Some? ==> exists k :: 0 <= k < |controls| && controls[k] == r.value
                          && r.value.id == id
                          && forall m :: 0 <= m < k ==> controls[m].id != id
  {
    if controls == [] then None
    else if controls[0].id == id then Some(controls[0])
    else
      var r := Find(controls[1..], id);
      assert r.Some? ==> exists k :: 0 <= k < |controls| && controls[k] == r.value
                          && r.value.id == id
                          && forall m :: 0 <= m < k ==> controls[m].id != id by {
        if r.Some? {
          var k :| 0 <= k < |controls[1..]| && controls[1..][k] == r.value
                   && forall m :: 0 <= m < k ==> controls[1..][m].id != id;
          assert controls[k + 1] == r.value;
          assert forall m :: 0 <= m < k + 1 ==> controls[m].id != id by {
            forall m | 0 <= m < k + 1 ensures controls[m].id != id {
              if m > 0 { assert controls[m] == controls[1..][m - 1]; }
            }
          }
        }
      }
      r
  }

  /** `.value` of the control with that id; None where the source would throw
      reading a property of null. */
  function ValueOf(controls: seq<Control>, id: string): Option<string> {
    match Find(controls, id)
    case None => None
    case Some(c) => Some(c.value)
  }

  /** The `formData` object literal. The five mandatory controls are read
      without a null check, so a missing one makes the literal throw; the
      address and the site-visit box are read with `?.` and fall back to `''`
      and `false`. Values are taken as they are, untrimmed. */
  function BuildRequest(controls: seq<Control>, timestamp: string): Option<ContactRequest> {
    var name := ValueOf(controls, "name");
    var email := ValueOf(controls, "email");
    var phone := ValueOf(controls, "phone");
    var projectType := ValueOf(controls, "project-type");
    var description := ValueOf(controls, "description");
    if name.None? || email.None? || phone.None? || projectType.None? || description.None? then None
    else
      var address := ValueOf(controls, "address").GetOr("");
      var siteVisit := match Find(controls, "site-visit")
        case Some(c) => c.checked
        case None => false;
      Some(ContactRequest(name.value, email.value, phone.value, address,
                          projectType.value, description.value, siteVisit, timestamp))
  }

  /** `form.reset()`: every control back to its default value and default
      checked state. The `error` class is not a form state and stays. */
  function ResetControls(controls: seq<Control>): (r: seq<Control>)
    ensures |r| == |controls|
    ensures forall k :: 0 <= k < |r| ==>
              r[k].value == controls[k].defaultValue && r[k].checked == controls[k].defaultChecked
    ensures forall k :: 0 <= k < |r| ==>
              r[k] == controls[k].(value := r[k].value, checked := r[k].checked)
  {
    seq(|controls|, k requires 0 <= k < |controls| =>
      controls[k].(value := controls[k].defaultValue, checked := controls[k].defaultChecked))
  }

  /** `showFormMessage(container, kind, text)`: a no-op without a message box. */
  function ShowMessage(page: Page, kind: NoticeKind, text: string): Page {
    if page.hasMessageBox then page.(notice := Some(Notice(kind, text))) else page
  }

  /** The button in its busy state, as the handler sets it before the await. */
  const BusyButton: SubmitButton := SubmitButton(true, BusyLabel, true)

  /** The handler up to the `await`: read the button and its label, disable
      it, show the busy label and the `loading` class, then build the payload. */
  function Begin(page: Page, timestamp: string): (r: Start)
    ensures page.button.None? ==> r == Halted(page)
    ensures page.button.Some? ==> r.page == page.(button := Some(SubmitButton(true, BusyLabel, true)))
    ensures r.Sending? <==> page.button.Some? && BuildRequest(page.controls, timestamp).Some?
    ensures r.Sending? ==> r.pending.originalLabel == page.button.value.caption
    ensures r.Sending? ==> r.pending.request == BuildRequest(page.controls, timestamp).value
  {
    match page.button
    case None => Halted(page)
    case Some(b) =>
      var busy := page.(button := Some(BusyButton));
      match BuildRequest(page.controls, timestamp)
      case None => Halted(busy)
      case Some(request) => Sending(busy, Pending(b.caption, request))
  }

  /** The handler after the `await`: on delivery show the thanks and reset the
      form, on rejection show the failure message; then, in `finally`, enable
      the button, put back the label saved at the start and drop `loading`. */
  function Complete(page: Page, pending: Pending, outcome: TransportOutcome): (r: Page)
    ensures r.button.Some? <==> page.button.Some?
    ensures r.button.Some? ==> r.button.value == SubmitButton(false, pending.originalLabel, false)
    ensures r.hasMessageBox == page.hasMessageBox
    ensures outcome == Delivered ==> r.controls == ResetControls(page.controls)
    ensures outcome == Rejected ==> r.controls == page.controls
    ensures page.hasMessageBox ==>
              r.notice == Some(Notice(if outcome == Delivered then SuccessNotice else ErrorNotice,
                                      if outcome == Delivered then SuccessText else FailureText))
    ensures !page.hasMessageBox ==> r.notice == page.notice
  {
    var afterTry := match outcome
      case Delivered =>
        var shown := ShowMessage(page, SuccessNotice, SuccessText);
        shown.(controls := ResetControls(shown.controls))
      case Rejected =>
        ShowMessage(page, ErrorNotice, FailureText);
    var restored := match afterTry.button
      case None => None
      case Some(b) => Some(b.(disabled := false, caption := pending.originalLabel, loading := false));
    afterTry.(button := restored)
  }

  /** One submit event handled to the end, the transport ending with `outcome`. */
  function Submit(page: Page, outcome: TransportOutcome, timestamp: string): SubmitResult {
    match Begin(page, timestamp)
    case Halted(p) => SubmitResult(p, None)
    case Sending(p, pending) => SubmitResult(Complete(p, pending, outcome), Some(pending.request))
  }

  /** The request is built whenever the five mandatory controls exist, however
      their values would fare in validation: the handler does not validate. */
  lemma RequestBuiltWithoutValidation(controls: seq<Control>, timestamp: string)
    ensures BuildRequest(controls, timestamp).Some? <==>
              && Find(controls, "name").Some? && Find(controls, "email").Some?
              && Find(controls, "phone").Some? && Find(controls, "project-type").Some?
              && Find(controls, "description").Some?
  {
  }

  /** The request carries the controls' values verbatim, `''` for a missing
      address control, `false` for a missing site-visit box, and the given
      timestamp. */
  lemma RequestFields(controls: seq<Control>, timestamp: string)
    requires BuildRequest(controls, timestamp).Some?
    ensures var q := BuildRequest(controls, timestamp).value;
            && Some(q.name) == ValueOf(controls, "name")
            && Some(q.email) == ValueOf(controls, "email")
            && Some(q.phone) == ValueOf(controls, "phone")
            && Some(q.projectType) == ValueOf(controls, "project-type")
            && Some(q.description) == ValueOf(controls, "description")
            && (Find(controls, "address").None? ==> q.address == "")
            && (Find(controls, "address").Some? ==> q.address == Find(controls, "address").value.value)
            && (Find(controls, "site-visit").None? ==> !q.wantSiteVisit)
            && (Find(controls, "site-visit").Some? ==> q.wantSiteVisit == Find(controls, "site-visit").value.checked)
            && q.timestamp == timestamp
  {
  }

  /** Whenever the handler gets to the transport, whatever the outcome, it ends
      with the button enabled, its original label back and no `loading`. */
  lemma SubmitRestoresButton(page: Page, outcome: TransportOutcome, timestamp: string)
    requires page.button.Some?
    requires BuildRequest(page.controls, timestamp).Some?
    ensures Submit(page, outcome, timestamp).page.button
            == Some(SubmitButton(false, page.button.value.caption, false))
  {
  }

  /** Delivery: the thanks is shown (if there is a box for it) and every control
      goes back to its default; the request is the one built from the form. */
  lemma SubmitDelivered(page: Page, timestamp: string)
    requires page.button.Some?
    requires BuildRequest(page.controls, timestamp).Some?
    ensures var r := Submit(page, Delivered, timestamp);
            && r.sent == BuildRequest(page.controls, timestamp)
            && r.page.controls == ResetControls(page.controls)
            && (page.hasMessageBox ==> r.page.notice == Some(Notice(SuccessNotice, SuccessText)))
  {
  }

  /** Rejection: the failure message is shown (if there is a box for it) and
      the controls keep exactly what the user typed. */
  lemma SubmitRejected(page: Page, timestamp: string)
    requires page.button.Some?
    requires BuildRequest(page.controls, timestamp).Some?
    ensures var r := Submit(page, Rejected, timestamp);
            && r.sent == BuildRequest(page.controls, timestamp)
            && r.page.controls == page.controls
            && (page.hasMessageBox ==> r.page.notice == Some(Notice(ErrorNotice, FailureText)))
  {
  }

  /** Without a submit button the handler throws on its first property read:
      nothing changes and nothing is sent. */
  lemma SubmitWithoutButton(page: Page, outcome: TransportOutcome, timestamp: string)
    requires page.button.None?
    ensures Submit(page, outcome, timestamp) == SubmitResult(page, None)
  {
  }

  /** With a mandatory control missing the handler throws after it has already
      disabled the button, so the button stays disabled, busy and loading, and
      nothing is sent. */
  lemma SubmitMissingControlLeavesBusy(page: Page, outcome: TransportOutcome, timestamp: string)
    requires page.button.Some?
    requires BuildRequest(page.controls, timestamp).None?
    ensures var r := Submit(page, outcome, timestamp);
            && r.sent.None?
            && r.page.button == Some(SubmitButton(true, BusyLabel, true))
            && r.page.controls == page.controls && r.page.notice == page.notice
  {
  }

  /** While the request is in flight the button is disabled, shows the busy
      label and carries `loading`. */
  lemma InFlightButtonBusy(page: Page, timestamp: string)
    requires Begin(page, timestamp).Sending?
    ensures Begin(page, timestamp).page.button == Some(SubmitButton(true, BusyLabel, true))
  {
  }

  /** The handler has no guard of its own against a second submit while one is
      in flight (only the disabled button stands in the way): a second start on
      the busy page sends a second request, and it saves the busy label as the
      "original". If that second run completes last, the form ends up enabled
      but labelled with the busy label. */
  lemma ReentrantSubmitKeepsBusyLabel(page: Page, t1: string, t2: string, o1: TransportOutcome, o2: TransportOutcome)
    requires Begin(page, t1).Sending?
    ensures var first := Begin(page, t1);
            var second := Begin(first.page, t2);
            && second.Sending?
            && second.pending.originalLabel == BusyLabel
            && Complete(Complete(second.page, first.pending, o1), second.pending, o2).button
               == Some(SubmitButton(false, BusyLabel, false))
  {
    var first := Begin(page, t1);
    var second := Begin(first.page, t2);
    assert first.page.controls == page.controls;
    assert second.Sending?;
    var mid := Complete(second.page, first.pending, o1);
    assert mid.button.Some?;
  }

  /** Resetting twice is resetting once. */
  lemma ResetIdempotent(controls: seq<Control>)
    ensures ResetControls(ResetControls(controls)) == ResetControls(controls)
  {
  }

  /** A blur or input event on control `i` of the form. */
  function HandleFieldEvent(page: Page, i: nat, e: FieldEvent): (r: Page)
    requires i < |page.controls|
    ensures |r.controls| == |page.controls|
    ensures r.controls[i] == OnEvent(page.controls[i], e)
    ensures forall k :: 0 <= k < |r.controls| && k != i ==> r.controls[k] == page.controls[k]
    ensures r == page.(controls := r.controls)
  {
    page.(controls := page.controls[i := OnEvent(page.controls[i], e)])
  }

  /** Every marked control of the page holds a failing value. */
  ghost predicate FlagsCurrent(page: Page) {
    forall k :: 0 <= k < |page.controls| ==> FlagIsCurrent(page.controls[k])
  }

  /** Field events keep every flag on the page current. */
  lemma FieldEventKeepsFlagsCurrent(page: Page, i: nat, e: FieldEvent)
    requires i < |page.controls|
    requires FlagsCurrent(page)
    ensures FlagsCurrent(HandleFieldEvent(page, i, e))
  {
    EventKeepsFlagCurrent(page.controls[i], e);
  }

  /** A rejected submit keeps every flag on the page current. */
  lemma RejectedSubmitKeepsFlagsCurrent(page: Page, timestamp: string)
    requires FlagsCurrent(page)
    ensures FlagsCurrent(Submit(page, Rejected, timestamp).page)
  {
  }

  /** A delivered submit leaves every control's mark as it was: `form.reset()`
      restores values, not classes. */
  lemma DeliveredSubmitKeepsMarks(page: Page, timestamp: string)
    requires page.button.Some? && BuildRequest(page.controls, timestamp).Some?
    ensures var after := Submit(page, Delivered, timestamp).page;
            && |after.controls| == |page.controls|
            && forall k :: 0 <= k < |after.controls| ==>
                 after.controls[k].error == page.controls[k].error
                 && after.controls[k].value == page.controls[k].defaultValue
  {
  }

  /** So a marked control whose default value passes is marked wrongly once a
      delivered submit has reset it. */
  lemma DeliveredSubmitCanLeaveStaleFlag(page: Page, pending: Pending, i: nat)
    requires i < |page.controls| && page.controls[i].error
    requires VerdictOf(page.controls[i].(value := page.controls[i].defaultValue)).valid
    ensures !FlagsCurrent(Complete(page, pending, Delivered))
  {
    var after := Complete(page, pending, Delivered);
    assert after.controls[i] == page.controls[i].(value := page.controls[i].defaultValue,
                                                  checked := page.controls[i].defaultChecked);
  }
}
