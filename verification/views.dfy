/** The three mutually exclusive screens and the transient notification
    (script.js, showView and showToast). */
module Views {

  /** The form screen (create or edit), the list of preserved capsules, and
      the reader for an unlocked capsule. */
  datatype Screen = FormScreen | ListScreen | ReaderScreen

  /** `showToast(msg, type)`; the type defaults to 'success'. */
  datatype ToastKind = Success | Error

  datatype Toast = Toast(text: string, kind: ToastKind)
}
