/** Field checks applied to a submitted guestbook entry. Lengths are byte
    counts, as Go's `len` on a string is. */
module Validation {
  import opened Bytes
  import opened Wrappers
  import Email

  const NAME_MIN_LEN := 3
  const NAME_MAX_LEN := 100
  const EMAIL_MIN_LEN := 6
  const EMAIL_MAX_LEN := 100
  const MESSAGE_MIN_LEN := 10
  const MESSAGE_MAX_LEN := 2000

  /** The reason a check fails; the checks run in this order and the first
      failure is reported. Callers only learn that validation failed. */
  datatype Violation = NameLength | EmailLength | MessageLength | EmailFormat

  ghost predicate NameInBounds(name: Bytes) {
    NAME_MIN_LEN <= |name| <= NAME_MAX_LEN
  }

  ghost predicate EmailInBounds(email: Bytes) {
    EMAIL_MIN_LEN <= |email| <= EMAIL_MAX_LEN
  }

  ghost predicate MessageInBounds(message: Bytes) {
    MESSAGE_MIN_LEN <= |message| <= MESSAGE_MAX_LEN
  }

  /** The entries the guestbook accepts, stated without the decision procedure. */
  ghost predicate Acceptable(name: Bytes, email: Bytes, message: Bytes) {
    && NameInBounds(name)
    && EmailInBounds(email)
    && MessageInBounds(message)
    && Email.WellFormedAddress(email)
  }

  /** Checks the three length bounds, then the email format; `None` means valid. */
  function ValidateEntry(name: Bytes, email: Bytes, message: Bytes): (r: Option<Violation>)
    ensures r.None? <==> Acceptable(name, email, message)
    ensures r == Some(NameLength) <==> !NameInBounds(name)
    ensures r == Some(EmailLength) <==> NameInBounds(name) && !EmailInBounds(email)
    ensures r == Some(MessageLength) <==>
              NameInBounds(name) && EmailInBounds(email) && !MessageInBounds(message)
    ensures r == Some(EmailFormat) <==>
              NameInBounds(name) && EmailInBounds(email) && MessageInBounds(message)
              && !Email.WellFormedAddress(email)
  {
    Email.IsValidEmailIffWellFormed(email);
    if |name| < NAME_MIN_LEN || |name| > NAME_MAX_LEN then Some(NameLength)
    else if |email| < EMAIL_MIN_LEN || |email| > EMAIL_MAX_LEN then Some(EmailLength)
    else if |message| < MESSAGE_MIN_LEN || |message| > MESSAGE_MAX_LEN then Some(MessageLength)
    else if !Email.IsValidEmail(email) then Some(EmailFormat)
    else None
  }
}
