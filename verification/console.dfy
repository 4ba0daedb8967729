/** The status shown on the console page: the operating mode, the alert
    state and the latest reading.  Only the mapping from the shared status
    fields to the words shown is modelled, not the surrounding page. */
module Console {

  /** The word shown for the operating mode (`true` is the alert mode). */
  function ModeText(alertMode: bool): string {
    if alertMode then "ALERT" else "NORMAL"
  }

  /** The word shown for the alert state (`true` while the alert blink runs). */
  function AlertText(active: bool): string {
    if active then "ACTIVE" else "CLEAR"
  }

  /** What the page shows. */
  datatype StatusView = StatusView(mode: string, alert: string, latest: int)

  /** The shown status for given values of the three shared fields; the
      latest reading is shown as it is. */
  function Render(alertMode: bool, alertActive: bool, latest: int): (v: StatusView)
    ensures v.mode == "ALERT" <==> alertMode
    ensures v.mode == "NORMAL" <==> !alertMode
    ensures v.alert == "ACTIVE" <==> alertActive
    ensures v.alert == "CLEAR" <==> !alertActive
    ensures v.latest == latest
  {
    StatusView(ModeText(alertMode), AlertText(alertActive), latest)
  }

  /** The status fields read back from a shown status, if its words are known. */
  datatype Fields = Unknown | Known(alertMode: bool, alertActive: bool, latest: int)

  /** Reads the shown words back into field values. */
  function Parse(v: StatusView): Fields {
    if (v.mode == "ALERT" || v.mode == "NORMAL") && (v.alert == "ACTIVE" || v.alert == "CLEAR")
    then Known(v.mode == "ALERT", v.alert == "ACTIVE", v.latest)
    else Unknown
  }

  /** The page determines the status it was rendered from: distinct field
      values are always shown differently. */
  lemma RenderRoundTrip(alertMode: bool, alertActive: bool, latest: int)
    ensures Parse(Render(alertMode, alertActive, latest)) == Known(alertMode, alertActive, latest)
  {
  }
}
