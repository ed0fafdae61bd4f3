/** The 16 -> 8 bit square root table of mp_sqrtrem1. */
module SqrtTable {
  /** The table in rows of 16 entries: row k starts with entry 16 * k. */
  const ROW_0: seq<int> := [128, 128, 129, 130, 131, 132, 133, 134, 135, 136, 137, 138, 139, 140, 141, 142]
  const ROW_1: seq<int> := [143, 144, 144, 145, 146, 147, 148, 149, 150, 150, 151, 152, 153, 154, 155, 155]
  const ROW_2: seq<int> := [156, 157, 158, 159, 160, 160, 161, 162, 163, 163, 164, 165, 166, 167, 167, 168]
  const ROW_3: seq<int> := [169, 170, 170, 171, 172, 173, 173, 174, 175, 176, 176, 177, 178, 178, 179, 180]
  const ROW_4: seq<int> := [181, 181, 182, 183, 183, 184, 185, 185, 186, 187, 187, 188, 189, 189, 190, 191]
  const ROW_5: seq<int> := [192, 192, 193, 193, 194, 195, 195, 196, 197, 197, 198, 199, 199, 200, 201, 201]
  const ROW_6: seq<int> := [202, 203, 203, 204, 204, 205, 206, 206, 207, 208, 208, 209, 209, 210, 211, 211]
  const ROW_7: seq<int> := [212, 212, 213, 214, 214, 215, 215, 216, 217, 217, 218, 218, 219, 219, 220, 221]
  const ROW_8: seq<int> := [221, 222, 222, 223, 224, 224, 225, 225, 226, 226, 227, 227, 228, 229, 229, 230]
  const ROW_9: seq<int> := [230, 231, 231, 232, 232, 233, 234, 234, 235, 235, 236, 236, 237, 237, 238, 238]
  const ROW_10: seq<int> := [239, 240, 240, 241, 241, 242, 242, 243, 243, 244, 244, 245, 245, 246, 246, 247]
  const ROW_11: seq<int> := [247, 248, 248, 249, 249, 250, 250, 251, 251, 252, 252, 253, 253, 254, 254, 255]

  function Row(k: nat): seq<int>
    requires k < 12
  {
    if k < 6 then
      if k < 3 then (if k == 0 then ROW_0 else if k == 1 then ROW_1 else ROW_2)
      else (if k == 3 then ROW_3 else if k == 4 then ROW_4 else ROW_5)
    else
      if k < 9 then (if k == 6 then ROW_6 else if k == 7 then ROW_7 else ROW_8)
      else (if k == 9 then ROW_9 else if k == 10 then ROW_10 else ROW_11)
  }

  function Entry(i: nat): int
    requires i < 192
  {
    assert |Row(i / 16)| == 16;
    Row(i / 16)[i % 16]
  }

  /** s is the square root of the 16-bit numbers with high byte h, or one below it. */
  predicate Covers(s: int, h: int) {
    128 <= s <= 255 && s * s <= h * 256 && h * 256 + 255 < (s + 2) * (s + 2)
  }

  predicate RowCovers(row: seq<int>, h: int) {
    && |row| == 16
    && Covers(row[0], h) && Covers(row[1], h + 1) && Covers(row[2], h + 2) && Covers(row[3], h + 3)
    && Covers(row[4], h + 4) && Covers(row[5], h + 5) && Covers(row[6], h + 6) && Covers(row[7], h + 7)
    && Covers(row[8], h + 8) && Covers(row[9], h + 9) && Covers(row[10], h + 10) && Covers(row[11], h + 11)
    && Covers(row[12], h + 12) && Covers(row[13], h + 13) && Covers(row[14], h + 14) && Covers(row[15], h + 15)
  }

  lemma Rows0()
    ensures RowCovers(ROW_0, 64)
    ensures RowCovers(ROW_1, 80)
    ensures RowCovers(ROW_2, 96)
  {
  }

  lemma Rows1()
    ensures RowCovers(ROW_3, 112)
    ensures RowCovers(ROW_4, 128)
    ensures RowCovers(ROW_5, 144)
  {
  }

  lemma Rows2()
    ensures RowCovers(ROW_6, 160)
    ensures RowCovers(ROW_7, 176)
    ensures RowCovers(ROW_8, 192)
  {
  }

  lemma Rows3()
    ensures RowCovers(ROW_9, 208)
    ensures RowCovers(ROW_10, 224)
    ensures RowCovers(ROW_11, 240)
  {
  }

  lemma RowAt(row: seq<int>, h: int, j: nat)
    requires RowCovers(row, h) && j < 16
    ensures Covers(row[j], h + j)
  {
  }

  lemma RowOf(k: nat)
    requires k < 12
    ensures RowCovers(Row(k), 64 + 16 * k)
  {
    Rows0(); Rows1(); Rows2(); Rows3();
    hide RowCovers;
  }

  /** Every table entry fits its index: entry h - 64 covers the numbers with high byte h. */
  lemma EntryCovers(h: nat)
    requires 64 <= h < 256
    ensures Covers(Entry(h - 64), h)
  {
    hide Covers, RowCovers, Row;
    var k, j := (h - 64) / 16, (h - 64) % 16;
    RowOf(k);
    RowAt(Row(k), 64 + 16 * k, j);
    assert 64 + 16 * k + j == h;
  }
}
