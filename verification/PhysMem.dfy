/** Physical memory as 2^20 frames of 1024 words each. */
module PhysMem {
  import opened Bits

  const FRAMES := 0x10_0000

  type FrameNo = f: int | 0 <= f < 0x10_0000
  type Index = i: int | 0 <= i < 1024
  type Page = p: seq<Word> | |p| == 1024 witness seq(1024, _ => 0)
  const BLANK: Page := seq(1024, _ => 0)
  type Memory = m: seq<Page> | |m| == FRAMES witness seq<Page>(FRAMES, _ => BLANK)

  // The physical address of the first byte of a frame
  function Address(f: FrameNo): (a: Word)
    ensures a % 4096 == 0 && a / 4096 == f
  {
    (f as int) * 4096
  }

  /** The memory after word i of frame f is overwritten with v. */
  function Set(m: Memory, f: FrameNo, i: Index, v: Word): Memory
  {
    m[f := m[f][i := v]]
  }
}
