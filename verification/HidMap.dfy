/** From evdev key codes to usages of the HID keyboard page, as the boot
    keyboard report carries them. */
module HidMap {
  const KEY_CNT: nat := 0x300
  const USAGE_MAX: nat := 0x65

  const NONE: seq<nat> := [0, 0, 0, 0, 0, 0, 0, 0, 0, 0, 0, 0, 0, 0, 0, 0]

  /** The usages of codes 16 r to 16 r + 15, 0 where there is none. */
  function UsageRow(r: nat): (row: seq<nat>)
    ensures |row| == 16
  {
    match r
    case 0 => [0x00, 0x29, 0x1E, 0x1F, 0x20, 0x21, 0x22, 0x23, 0x24, 0x25, 0x26, 0x27, 0x2D, 0x2E, 0x2A, 0x2B]
    case 1 => [0x14, 0x1A, 0x08, 0x15, 0x17, 0x1C, 0x18, 0x0C, 0x12, 0x13, 0x2F, 0x30, 0x28, 0xE0, 0x04, 0x16]
    case 2 => [0x07, 0x09, 0x0A, 0x0B, 0x0D, 0x0E, 0x0F, 0x33, 0x34, 0x35, 0xE1, 0x31, 0x1D, 0x1B, 0x06, 0x19]
    case 3 => [0x05, 0x11, 0x10, 0x36, 0x37, 0x38, 0xE5, 0x55, 0xE2, 0x2C, 0x39, 0x3A, 0x3B, 0x3C, 0x3D, 0x3E]
    case 4 => [0x3F, 0x40, 0x41, 0x42, 0x43, 0x53, 0x47, 0x5F, 0x60, 0x61, 0x56, 0x5C, 0x5D, 0x5E, 0x57, 0x59]
    case 5 => [0x5A, 0x5B, 0x62, 0x63, 0x00, 0x94, 0x64, 0x44, 0x45, 0x87, 0x92, 0x93, 0x8A, 0x88, 0x8B, 0x8C]
    case 6 => [0x58, 0xE4, 0x54, 0x46, 0xE6, 0x00, 0x4A, 0x52, 0x4B, 0x50, 0x4F, 0x4D, 0x51, 0x4E, 0x49, 0x4C]
    case 7 => [0x00, 0x7F, 0x81, 0x80, 0x66, 0x67, 0x00, 0x48, 0x00, 0x85, 0x90, 0x91, 0x89, 0xE3, 0xE7, 0x65]
    case 8 => [0x78, 0x79, 0x76, 0x7A, 0x77, 0x7C, 0x74, 0x7D, 0x7E, 0x7B, 0x75, 0x00, 0x00, 0x00, 0x00, 0x00]
    case 11 => [0x00, 0x00, 0x00, 0xB6, 0xB7, 0x00, 0x00, 0x68, 0x69, 0x6A, 0x6B, 0x6C, 0x6D, 0x6E, 0x6F, 0x70]
    case 12 => [0x71, 0x72, 0x73, 0x00, 0x00, 0x00, 0x00, 0x00, 0x00, 0x00, 0x00, 0x00, 0x00, 0x00, 0x00, 0x00]
    case _ => NONE
  }

  /** The codes of usages 16 r to 16 r + 15, 0 where there is none. */
  function CodeRow(r: nat): (row: seq<nat>)
    ensures |row| == 16
  {
    match r
    case 0 => [0, 0, 0, 0, 30, 48, 46, 32, 18, 33, 34, 35, 23, 36, 37, 38]
    case 1 => [50, 49, 24, 25, 16, 19, 31, 20, 22, 47, 17, 45, 21, 44, 2, 3]
    case 2 => [4, 5, 6, 7, 8, 9, 10, 11, 28, 1, 14, 15, 57, 12, 13, 26]
    case 3 => [27, 43, 0, 39, 40, 41, 51, 52, 53, 58, 59, 60, 61, 62, 63, 64]
    case 4 => [65, 66, 67, 68, 87, 88, 99, 70, 119, 110, 102, 104, 111, 107, 109, 106]
    case 5 => [105, 108, 103, 69, 98, 55, 74, 78, 96, 79, 80, 81, 75, 76, 77, 71]
    case 6 => [72, 73, 82, 83, 86, 127, 116, 117, 183, 184, 185, 186, 187, 188, 189, 190]
    case 7 => [191, 192, 193, 194, 134, 138, 130, 132, 128, 129, 131, 137, 133, 135, 136, 113]
    case 8 => [115, 114, 0, 0, 0, 121, 0, 89, 93, 124, 92, 94, 95, 0, 0, 0]
    case 9 => [122, 123, 90, 91, 85, 0, 0, 0, 0, 0, 0, 0, 0, 0, 0, 0]
    case 11 => [0, 0, 0, 0, 0, 0, 179, 180, 0, 0, 0, 0, 0, 0, 0, 0]
    case 14 => [29, 42, 56, 125, 97, 54, 100, 126, 0, 0, 0, 0, 0, 0, 0, 0]
    case _ => NONE
  }

  function Usage(code: nat): nat { UsageRow(code / 16)[code % 16] }
  function Code(u: nat): nat { CodeRow(u / 16)[u % 16] }
  // One row of the table at a time: CODE undoes USAGE.
  lemma InverseRow0(k: nat)
    requires k < 16 && UsageRow(0)[k] != 0
    ensures Code(UsageRow(0)[k]) == 0 + k
  {}

  lemma InverseRow1(k: nat)
    requires k < 16 && UsageRow(1)[k] != 0
    ensures Code(UsageRow(1)[k]) == 16 + k
  {}

  lemma InverseRow2(k: nat)
    requires k < 16 && UsageRow(2)[k] != 0
    ensures Code(UsageRow(2)[k]) == 32 + k
  {}

  lemma InverseRow3(k: nat)
    requires k < 16 && UsageRow(3)[k] != 0
    ensures Code(UsageRow(3)[k]) == 48 + k
  {}

  lemma InverseRow4(k: nat)
    requires k < 16 && UsageRow(4)[k] != 0
    ensures Code(UsageRow(4)[k]) == 64 + k
  {}

  lemma InverseRow5(k: nat)
    requires k < 16 && UsageRow(5)[k] != 0
    ensures Code(UsageRow(5)[k]) == 80 + k
  {}

  lemma InverseRow6(k: nat)
    requires k < 16 && UsageRow(6)[k] != 0
    ensures Code(UsageRow(6)[k]) == 96 + k
  {}

  lemma InverseRow7(k: nat)
    requires k < 16 && UsageRow(7)[k] != 0
    ensures Code(UsageRow(7)[k]) == 112 + k
  {}

  lemma InverseRow8(k: nat)
    requires k < 16 && UsageRow(8)[k] != 0
    ensures Code(UsageRow(8)[k]) == 128 + k
  {}

  lemma InverseRow11(k: nat)
    requires k < 16 && UsageRow(11)[k] != 0
    ensures Code(UsageRow(11)[k]) == 176 + k
  {}

  lemma InverseRow12(k: nat)
    requires k < 16 && UsageRow(12)[k] != 0
    ensures Code(UsageRow(12)[k]) == 192 + k
  {}


  /** No two keys share a usage: the code can be read back. */
  lemma Inverse(code: nat)
    requires Usage(code) != 0
    ensures Code(Usage(code)) == code
  {
    hide CodeRow, Code;
    var r, k := code / 16, code % 16;
    match r
    case 0 => InverseRow0(k);
    case 1 => InverseRow1(k);
    case 2 => InverseRow2(k);
    case 3 => InverseRow3(k);
    case 4 => InverseRow4(k);
    case 5 => InverseRow5(k);
    case 6 => InverseRow6(k);
    case 7 => InverseRow7(k);
    case 8 => InverseRow8(k);
    case 11 => InverseRow11(k);
    case 12 => InverseRow12(k);
    case _ =>
  }
}
