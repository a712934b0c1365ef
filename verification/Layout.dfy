/** Flash regions (ldscript/memory.ld). */
module Layout {
  const PRELDR_START := 0x0800_0000
  const PRELDR_END := PRELDR_START + 16 * 1024
  const LDR_START := 0x0800_4000
  const LDR_END := LDR_START + 48 * 1024
  const CFG_ORIGIN := 0x0801_0000
  const CFG_END := CFG_ORIGIN + 64 * 1024
  const CFG_SIZE := CFG_END - CFG_ORIGIN
  const APP_START := 0x0802_0000
  const APP_END := APP_START + 384 * 1024
  const HEADER_OFFSET := 0x190
}
