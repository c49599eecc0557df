/** Error values standing for the exceptions the room-escape core throws, and
    the Option/Result wrappers the model returns instead of throwing. */
module Errors {

  datatype Option<+T> = None | Some(value: T)

  /** The exception kinds of the core. A Java exception class becomes a
      constructor; where the source fixes a message, it travels with it. */
  datatype Error =
    | IllegalArgument(message: string)   // java.lang.IllegalArgumentException
    | NoSuchElement(message: string)     // java.util.NoSuchElementException
    | DuplicatedReservation              // DuplicatedReservationException
    | WaitingListExceeded                // WaitingListExceededException
    | NotModifiable                      // a cancel by neither the owner nor an admin
    | MemberNotFound                     // the member repository's lookup failure

  datatype Result<+T> = Ok(value: T) | Err(error: Error)

  const PastReservationMessage: string := "현재 시간보다 과거로 예약할 수 없습니다."
  const ReservationNotFoundMessage: string := "존재하지 않는 예약입니다."
  const TimeNotFoundMessage: string := "존재하지 않는 예약 시간입니다."
  const ThemeNotFoundMessage: string := "존재하지 않는 테마입니다."

  const EmailTooLongMessage: string := "이메일은 50자 이하여야 합니다."
  const EmailMalformedMessage: string := "이메일 형식이 올바르지 않습니다."
  const EmailRequiredMessage: string := "이메일은 필수 입력값 입니다."
  const PasswordRequiredMessage: string := "비밀번호는 필수 입력값 입니다."
  const PasswordLengthMessage: string := "비밀번호는 8자 이상 20자 이하여야 합니다."
}
