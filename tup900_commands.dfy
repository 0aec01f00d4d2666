/** The Star Line Mode command codes the module sends to the TUP900 printer.
    Each is a fixed byte sequence; nothing in the module ever changes one. */
module Tup900Commands {
  import opened Wrappers

  /** Line feed (the printer also returns the carriage). */
  const LfCommand: seq<Byte> := [0x0A]

  /** Character pitch: 12, 15 or 16 dots between characters. */
  const Dot12PitchCommand: seq<Byte> := [0x1B, 0x4D]
  const Dot15PitchCommand: seq<Byte> := [0x1B, 0x50]
  const Dot16PitchCommand: seq<Byte> := [0x1B, 0x3A]

  /** Emphasised (bold) text on and off. */
  const StartEmphasizedCommand: seq<Byte> := [0x1B, 0x45]
  const CancelEmphasizedCommand: seq<Byte> := [0x1B, 0x46]

  /** Underlined text on and off. */
  const StartUnderlineCommand: seq<Byte> := [0x1B, 0x2D, 0x01]
  const CancelUnderlineCommand: seq<Byte> := [0x1B, 0x2D, 0x00]

  /** Inverse (white on black) text on and off. */
  const StartInverseCommand: seq<Byte> := [0x1B, 0x34]
  const CancelInverseCommand: seq<Byte> := [0x1B, 0x35]

  /** Cut the paper. */
  const CutCommand: seq<Byte> := [0x1B, 0x64, 0x02]

  /** Print the logo stored in the printer. */
  const PrintLogoCommand: seq<Byte> := [0x1B, 0x1C, 0x70, 0x01, 0x00]

  /** Print "MVP" (0x4D 0x56 0x50) as a Code128 barcode: ESC b, type 6
      (Code128), underbar 2, mode 2, height 0xA0 dots, the data, RS. */
  const PrintCode128Command: seq<Byte> := [0x1B, 0x62, 0x06, 0x02, 0x02, 0xA0, 0x4D, 0x56, 0x50, 0x1E]

  /** Arm the presenter's automatic paper recovery, after 0x40 / 2 = 32 seconds. */
  const SetRecoveryTimespanCommand: seq<Byte> := [0x1B, 0x16, 0x31, 0x40]

  /** Run the presenter's paper recovery at once (declared, never referenced by the module). */
  const ExecuteRecoveryCommand: seq<Byte> := [0x1B, 0x16, 0x30, 0x00]

  /** Ask the printer for its automatic status block (ESC RS a 4). */
  const EnableAsbStatusCommand: seq<Byte> := [0x1B, 0x1E, 0x61, 0x04]

  const Esc: Byte := 0x1B

  /** Every entry of the table, in declaration order. */
  const Catalog: seq<seq<Byte>> := [
    LfCommand, Dot12PitchCommand, Dot15PitchCommand, Dot16PitchCommand,
    StartEmphasizedCommand, CancelEmphasizedCommand,
    StartUnderlineCommand, CancelUnderlineCommand,
    StartInverseCommand, CancelInverseCommand,
    CutCommand, PrintLogoCommand, PrintCode128Command,
    SetRecoveryTimespanCommand, ExecuteRecoveryCommand, EnableAsbStatusCommand]

  /** Every command is non-empty; all but the line feed are escape
      sequences, and the line feed is a single byte below ESC. */
  lemma CatalogWellFormed()
    ensures |Catalog| == 16
    ensures forall i :: 0 <= i < |Catalog| ==> |Catalog[i]| > 0
    ensures forall i :: 1 <= i < |Catalog| ==> Catalog[i][0] == Esc
    ensures LfCommand == [0x0A]
  {
  }
}
