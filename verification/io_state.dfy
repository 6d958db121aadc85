/** The fields of the `IO` object (WillsIO.h:62-78) as one immutable record.

    `blinker` is a function-local static in `IO::updater` (WillsIO.cpp:215);
    it lives for the whole program, so the model keeps it beside the fields it
    is used with.  The class-level `blinker` declared in the header is never
    defined and plays no part. */
module IoState {
  import opened Bytes

  /** EXITQUEUELENGTH */
  const QueueLength := 4

  /** Exit requests: MSN = destination, LSN = siding; index 0 goes next;
      0 marks an empty slot. */
  type Queue = q: seq<Byte> | |q| == QueueLength witness [0, 0, 0, 0]

  const EmptyQueue: Queue := [0, 0, 0, 0]

  /** The reset value of the half-second divider: 25 scans of about 20 ms. */
  const HalfSecondTicks := 25

  datatype Io = Io(
    pointValues: Word,      // bit k set: point k+1 off-normal
    totiValues: Word,       // bit k set: section k+1 occupied
    halfSecond: int,        // scans left until the next indicator refresh
    blinker: bool,          // flash phase of the exit-mode indicators
    exitQueue: Queue,
    activeExit: Byte,       // last value popped from the queue
    exitModeDisplay: Byte   // MSN: destination lit, LSN: destination flashing
  )

  /** The halfSecond counter stays in the range its two writers give it. */
  predicate DividerInRange(io: Io)
  {
    1 <= io.halfSecond <= HalfSecondTicks
  }
}
