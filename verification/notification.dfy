/** The notification record handed from posters to handlers. */
module Notifications {

  /**
   * A notification: `kind` is the source's `Type` (a toastr level such as
   * "INFO" or "ERROR"), `message` its `Message`.
   */
  datatype Notification = Notification(kind: string, message: string)
}
