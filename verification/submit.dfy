/**
 The check the "Save memory" handler makes before it contacts the backend
 (script.js): if either coordinate field is empty, the status line reads
 "Coordinates missing." and no request is built; otherwise the status line
 reads "Saving..." and the form's five fields become the request payload.
 */
module SubmitGuard {

  /** The popup form's values as the handler reads them (title and body
      already trimmed). */
  datatype Form = Form(title: string, body: string, lat: string, lng: string, icon: string)

  /** The object the handler posts: one named field per form value. */
  datatype Payload = Payload(lat: string, lng: string, title: string, body: string, icon: string)

  /** Either the submission stops before any request, or it proceeds with
      the payload to send. */
  datatype Decision = Missing | Proceed(payload: Payload)

  const MissingStatus: string := "Coordinates missing."
  const SavingStatus: string := "Saving..."

  /** The guard: a submission proceeds exactly when both coordinate strings
      are non-empty, and a payload that goes out carries both of them. */
  function Decide(f: Form): (d: Decision)
    ensures d.Missing? <==> f.lat == "" || f.lng == ""
    ensures d.Proceed? ==> d.payload.lat != "" && d.payload.lng != ""
  {
    if f.lat == "" || f.lng == "" then Missing
    else Proceed(Payload(f.lat, f.lng, f.title, f.body, f.icon))
  }

  /** The status line the handler shows once it has decided. */
  function StatusText(d: Decision): (r: string)
    ensures r == MissingStatus <==> d.Missing?
    ensures r == SavingStatus <==> d.Proceed?
  {
    match d
    case Missing => MissingStatus
    case Proceed(_) => SavingStatus
  }

  /** The form a payload was built from. */
  function FormOf(p: Payload): Form {
    Form(p.title, p.body, p.lat, p.lng, p.icon)
  }

  /** Nothing is lost on the way to the request: the form can be read back
      from the payload it produced. */
  lemma PayloadRoundTrip(f: Form)
    requires f.lat != "" && f.lng != ""
    ensures Decide(f).Proceed? && FormOf(Decide(f).payload) == f
  {
  }

  /** Every payload with both coordinates present is what the guard sends
      for the form it describes, so forms and sent payloads correspond one
      to one. */
  lemma PayloadDetermines(p: Payload)
    requires p.lat != "" && p.lng != ""
    ensures Decide(FormOf(p)) == Proceed(p)
  {
  }
}
