/** Values shared by every component of the screen-update pipeline. */
module Types {
  type byte = x: int | 0 <= x < 256

  datatype Option<+T> = None | Some(value: T)

  datatype Result<+T, +E> = Ok(value: T) | Err(error: E)

  /** Every error the modelled components can return. */
  datatype Error =
      // protocol
    | Malformed
    | MessageTooLarge
    | UnknownType
    | WrongDirection
    | BadSequence
    | BadVersion
    | NoCommonVersion
    | BadState
    | ShortRead
      // packer
    | FrameFits
    | FrameTooLarge
    | PartTooLarge
      // damage detector
    | InvalidImage
    | RectLimit
    | PayloadBudget
      // client framebuffer
    | DisplayNotConfigured
    | KeyframeRequired
    | StaleGeneration
    | StaleSequence
    | Interleaved
    | RestartAtPartZero
    | MissingPartZero
    | InconsistentHeader
    | UnexpectedIndex
    | TooManyRectangles
    | OutsideDisplay
    | OverlappingParts
    | IncompleteKeyframe
    | BadZlib
    | DecodedLength
      // establishment
    | TlsRequired
    | AuthenticationFailed
    | Busy
    | UnexpectedMessage

  /** A rectangle of pixels; the corner is inclusive, the far edges are exclusive. */
  datatype Rect = Rect(x: nat, y: nat, w: nat, h: nat)

  /** A packed BGRA image. */
  datatype Image = Image(width: nat, height: nat, pixels: seq<byte>)
}
