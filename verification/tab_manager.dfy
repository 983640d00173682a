/** The tab strip: how it labels tabs, when it offers the close button, and
    which session actions its clicks and drops can raise. */
module TabManager {
  import opened Js
  import opened Seqs
  import opened JsStrings
  import opened Entities
  import opened App
  import SessionProofs

  /** The default `maxLength` of a tab label. */
  const DEFAULT_MAX_LENGTH: int := 20

  const ELLIPSIS: string := "..."

  /** `getTruncatedTitle`: a missing, empty or blank-page title reads
      `New Tab`; a title longer than `maxLength` is cut to its first
      `maxLength` characters followed by `...`; any other title is shown whole. */
  function TruncatedTitle(title: string, maxLength: int): (r: string)
    ensures title == "" || title == BLANK_URL ==> r == NEW_TAB_TITLE
    ensures title != "" && title != BLANK_URL && |title| <= maxLength ==> r == title
    ensures title != "" && title != BLANK_URL && |title| > maxLength ==>
      && |r| == (if maxLength < 0 then 0 else maxLength) + |ELLIPSIS|
      && r[..|r| - |ELLIPSIS|] <= title
      && r[|r| - |ELLIPSIS|..] == ELLIPSIS
  {
    if title == "" || title == BLANK_URL then NEW_TAB_TITLE
    else if |title| > maxLength then
      var head := Prefix(title, maxLength);
      assert (head + ELLIPSIS)[..|head|] == head;
      head + ELLIPSIS
    else title
  }

  /** With the default length every label has at most 23 characters, and it
      is the title itself, `New Tab`, or the title's first 20 characters
      followed by `...`. */
  lemma DefaultLabelBounded(title: string)
    ensures var r := TruncatedTitle(title, DEFAULT_MAX_LENGTH);
      && |r| <= DEFAULT_MAX_LENGTH + |ELLIPSIS|
      && (r == title || r == NEW_TAB_TITLE || (r[..20] == title[..20] && r[20..] == ELLIPSIS))
  {
  }

  /** The close button is rendered on every tab when there is more than one. */
  predicate CloseButtonShown(tabs: seq<Tab>) {
    |tabs| > 1
  }

  /** What the user can do on the tab strip. */
  datatype StripAction =
    | SelectClicked(selectedId: int)
    | CloseClicked(closedId: int)
    | NewTabButtonClicked
    | Dropped(dragged: Option<int>, target: int)

  /** The actions the rendered strip offers: clicks and drops land on a shown
      tab, and closing needs a visible close button. */
  predicate Offered(tabs: seq<Tab>, a: StripAction) {
    match a
    case SelectClicked(id) => HasKey(tabs, TabId, id)
    case CloseClicked(id) => CloseButtonShown(tabs) && HasKey(tabs, TabId, id)
    case NewTabButtonClicked => true
    case Dropped(_, target) => HasKey(tabs, TabId, target)
  }

  /** The session event an action raises; a drop only logs. */
  function ToEvent(a: StripAction): Option<Event> {
    match a
    case SelectClicked(id) => Some(TabSelected(id))
    case CloseClicked(id) => Some(TabClosed(id))
    case NewTabButtonClicked => Some(NewTabClicked)
    case Dropped(_, _) => None
  }

  /** The session after a strip action. A strip action only ever changes the
      tabs and the active id. That a drop leaves the session untouched holds
      by the definition of `ToEvent`: the drop handler only logs. */
  function Apply(s: Session, a: StripAction): (r: Session)
    requires |s.tabs| > 0
    ensures r.history == s.history && r.bookmarks == s.bookmarks
    ensures a.Dropped? ==> r == s
  {
    match a
    case SelectClicked(id) => SwitchTab(s, id)
    case CloseClicked(id) => CloseTab(s, id).state
    case NewTabButtonClicked => NewTab(s)
    case Dropped(_, _) => s
  }

  /** Every action the strip offers keeps a valid session valid. */
  lemma ApplyPreservesValid(s: Session, a: StripAction)
    requires Valid(s) && Offered(s.tabs, a)
    ensures Valid(Apply(s, a))
  {
    match a
    case SelectClicked(id) => SessionProofs.SwitchTabValidIff(s, id);
    case CloseClicked(id) => SessionProofs.CloseTabPreservesValid(s, id);
    case NewTabButtonClicked => SessionProofs.NewTabPreservesValid(s);
    case Dropped(_, _) =>
  }

  /** Every action the strip offers raises an event the session accepts.
      This follows from the definition of `Offered`, which records that the
      strip renders one button per tab of `tabs.map`, so a select click
      always names a shown tab. */
  lemma OfferedActionsAllowed(s: Session, a: StripAction)
    requires Offered(s.tabs, a) && ToEvent(a).Some?
    ensures Allowed(s, ToEvent(a).value)
    ensures ToEvent(a).value.TabSelected? ==> HasKey(s.tabs, TabId, ToEvent(a).value.selectedId)
  {
  }

  /** The close button is shown exactly when clicking it would close the
      tab: on a single tab the handler refuses, which is when the button is
      hidden. */
  lemma CloseShownIffEffective(s: Session, id: int)
    requires Valid(s) && HasKey(s.tabs, TabId, id)
    ensures CloseButtonShown(s.tabs) <==> CloseTab(s, id).state != s
  {
  }
}
