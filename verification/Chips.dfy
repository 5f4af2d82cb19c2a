/** The chip table of src/target.c and the status codes of src/linke.h. */
module Chips {
  import opened Words

  datatype Status = Ok | Usage | NoDevice | NoAccess | Usb | Io | TargetError | VerifyError | NotImplemented

  datatype Algo = Unsupported | Ch32v0

  datatype Chip = Chip(
    name: string,
    flashSize: nat,
    ramSize: nat,
    ramOffset: nat,
    linkeId: byte,
    modelId: nat,
    speed: byte,
    flashBase: nat,
    eraseSize: nat,
    algo: Algo)

  const RAM_STD := 0x2000_0000
  const RAM_CH571 := 0x2000_3800
  const FB_V := 0x0800_0000
  const FB_C := 0x0000_0000

  function Row(name: string, flashK: nat, ramK: nat, ramOffset: nat, id: byte, model: nat, speed: byte, base: nat,
               eraseSize: nat, algo: Algo): Chip
  {
    Chip(name, flashK * 1024, ramK * 1024, ramOffset, id, model, speed, base, eraseSize, algo)
  }

  const CHIPS: seq<Chip> := [
    Row("ch32v003", 16, 2, RAM_STD, 0x09, 0x0030, 0x01, FB_V, 64, Ch32v0),
    Row("ch32v002", 16, 4, RAM_STD, 0x4e, 0x0020, 0x01, FB_V, 64, Ch32v0),
    Row("ch32v004", 32, 6, RAM_STD, 0x4e, 0x0040, 0x01, FB_V, 64, Ch32v0),
    Row("ch32v005", 32, 6, RAM_STD, 0x4e, 0x0050, 0x01, FB_V, 64, Ch32v0),
    Row("ch32v006", 62, 8, RAM_STD, 0x4e, 0x0060, 0x01, FB_V, 64, Ch32v0),
    Row("ch32v007", 62, 8, RAM_STD, 0x4e, 0x0070, 0x01, FB_V, 64, Ch32v0),
    Row("ch32v103", 64, 20, RAM_STD, 0x01, 0x2500, 0x01, FB_V, 0, Unsupported),
    Row("ch32v203", 64, 20, RAM_STD, 0x05, 0x2030, 0x01, FB_V, 0, Unsupported),
    Row("ch32v208", 64, 20, RAM_STD, 0x05, 0x2080, 0x01, FB_V, 0, Unsupported),
    Row("ch32v303", 288, 32, RAM_STD, 0x06, 0x3030, 0x01, FB_V, 0, Unsupported),
    Row("ch32v305", 288, 32, RAM_STD, 0x06, 0x3050, 0x01, FB_V, 0, Unsupported),
    Row("ch32v307", 288, 32, RAM_STD, 0x06, 0x3070, 0x01, FB_V, 0, Unsupported),
    Row("ch32x033", 62, 20, RAM_STD, 0x0d, 0x0330, 0x01, FB_V, 0, Unsupported),
    Row("ch32x035", 62, 20, RAM_STD, 0x0d, 0x0350, 0x01, FB_V, 0, Unsupported),
    Row("ch32l103", 64, 20, RAM_STD, 0x0e, 0x1030, 0x01, FB_V, 0, Unsupported),
    Row("ch570", 240, 12, RAM_STD, 0x8b, 0x7000, 0x03, FB_C, 0, Unsupported),
    Row("ch572", 240, 12, RAM_STD, 0x8b, 0x7200, 0x03, FB_C, 0, Unsupported),
    Row("ch571", 192, 18, RAM_CH571, 0x02, 0x7100, 0x02, FB_C, 0, Unsupported),
    Row("ch573", 448, 18, RAM_CH571, 0x02, 0x7300, 0x02, FB_C, 0, Unsupported),
    Row("ch582", 448, 32, RAM_STD, 0x07, 0x8200, 0x03, FB_C, 0, Unsupported),
    Row("ch583", 448, 32, RAM_STD, 0x07, 0x8300, 0x03, FB_C, 0, Unsupported),
    Row("ch584", 448, 96, RAM_STD, 0x4b, 0x8400, 0x02, FB_C, 0, Unsupported),
    Row("ch585", 448, 128, RAM_STD, 0x4b, 0x9300, 0x02, FB_C, 0, Unsupported),
    Row("ch591", 192, 26, RAM_STD, 0x0b, 0x9100, 0x03, FB_C, 0, Unsupported),
    Row("ch592", 448, 26, RAM_STD, 0x0b, 0x9200, 0x03, FB_C, 0, Unsupported)
  ]
}
