/** The table that starts a square root: for a leading byte i >= 64, the root of 256 * i to
    8 bits. It is kept as twelve rows of sixteen entries. */
module SqrtTable {

  function TableRow(j: nat): (row: seq<int>)
    requires j < 12
    ensures |row| == 16
  {
    if j == 0 then [128, 128, 129, 130, 131, 132, 133, 134, 135, 136, 137, 138, 139, 140, 141, 142]
    else if j == 1 then [143, 144, 144, 145, 146, 147, 148, 149, 150, 150, 151, 152, 153, 154, 155, 155]
    else if j == 2 then [156, 157, 158, 159, 160, 160, 161, 162, 163, 163, 164, 165, 166, 167, 167, 168]
    else if j == 3 then [169, 170, 170, 171, 172, 173, 173, 174, 175, 176, 176, 177, 178, 178, 179, 180]
    else if j == 4 then [181, 181, 182, 183, 183, 184, 185, 185, 186, 187, 187, 188, 189, 189, 190, 191]
    else if j == 5 then [192, 192, 193, 193, 194, 195, 195, 196, 197, 197, 198, 199, 199, 200, 201, 201]
    else if j == 6 then [202, 203, 203, 204, 204, 205, 206, 206, 207, 208, 208, 209, 209, 210, 211, 211]
    else if j == 7 then [212, 212, 213, 214, 214, 215, 215, 216, 217, 217, 218, 218, 219, 219, 220, 221]
    else if j == 8 then [221, 222, 222, 223, 224, 224, 225, 225, 226, 226, 227, 227, 228, 229, 229, 230]
    else if j == 9 then [230, 231, 231, 232, 232, 233, 234, 234, 235, 235, 236, 236, 237, 237, 238, 238]
    else if j == 10 then [239, 240, 240, 241, 241, 242, 242, 243, 243, 244, 244, 245, 245, 246, 246, 247]
    else [247, 248, 248, 249, 249, 250, 250, 251, 251, 252, 252, 253, 253, 254, 254, 255]
  }

  /** sqrt_table[k], for k = leading byte - 64. */
  function Entry(k: nat): int
    requires k < 192
  {
    TableRow(k / 16)[k % 16]
  }

  /** t is the root of every 16-bit number with high byte b, or one less. */
  predicate RootOfByte(t: int, b: int) {
    128 <= t <= 255 && t * t <= 256 * b && 256 * b + 255 < (t + 2) * (t + 2)
  }

  predicate GoodRow(j: nat)
    requires j < 12
  {
    forall m :: 0 <= m < 16 ==> RootOfByte(TableRow(j)[m], 16 * j + m + 64)
  }

  lemma {:induction false} RowsA()
    ensures GoodRow(0) && GoodRow(1) && GoodRow(2) && GoodRow(3)
  {
  }

  lemma {:induction false} RowsB()
    ensures GoodRow(4) && GoodRow(5) && GoodRow(6) && GoodRow(7)
  {
  }

  lemma {:induction false} RowsC()
    ensures GoodRow(8) && GoodRow(9) && GoodRow(10) && GoodRow(11)
  {
  }

  /** Every entry of the table is right to within one unit. */
  lemma {:induction false} TableEntries(k: nat)
    requires k < 192
    ensures RootOfByte(Entry(k), k + 64)
  {
    RowsA();
    RowsB();
    RowsC();
    hide TableRow;
    var j := k / 16;
    assert GoodRow(j);
    assert k == 16 * j + k % 16;
  }
}
