/** The moderation constants that the backend handlers and the browser
    components both hard-code. */
module Rules {

  /** A pin whose report counter reaches this value is hidden. */
  const PinHideThreshold: int := 10

  /** A comment whose report counter reaches this value is hidden. */
  const CommentHideThreshold: int := 5

  /** The one username that may moderate. */
  const AdminName: string := "Developer"

  /** The report counter an administrator's delete writes, far above the threshold. */
  const DeletedReports: int := 999

  /** The row limit of the pin listing and of the user search. */
  const ListLimit: nat := 100
}
