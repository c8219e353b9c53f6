/** The terminal rendering of `display_qr_in_terminal`: one output line per
    matrix row, two full blocks for a dark module and two spaces for a light
    one. The matrix itself comes from the QR library and is an input here. */
module Render {

  const Block: char := '\U{2588}'
  const Dark: string := [Block, Block]
  const Light: string := "  "

  /** The two characters one module is drawn with: two full blocks when it
      is dark, two spaces when it is light. */
  function Cell(dark: bool): (r: string)
    ensures |r| == 2 && r[0] == r[1]
    ensures r[0] == Block <==> dark
    ensures !dark ==> r[0] == ' '
  {
    if dark then Dark else Light
  }

  /** `"".join(['██' if col else '  ' for col in row])`. */
  function RenderRow(row: seq<bool>): (line: string)
    ensures |line| == 2 * |row|
  {
    if row == [] then [] else Cell(row[0]) + RenderRow(row[1..])
  }

  /** The printed lines, one per matrix row. */
  function RenderMatrix(matrix: seq<seq<bool>>): (out: seq<string>)
    ensures |out| == |matrix|
    ensures forall i :: 0 <= i < |matrix| ==> out[i] == RenderRow(matrix[i])
    ensures forall i :: 0 <= i < |matrix| ==> |out[i]| == 2 * |matrix[i]|
  {
    seq(|matrix|, i requires 0 <= i < |matrix| => RenderRow(matrix[i]))
  }

  /** Module `i` of a row is drawn at columns `2 * i` and `2 * i + 1`. */
  lemma {:induction false} RenderRowAt(row: seq<bool>, i: nat)
    requires i < |row|
    ensures RenderRow(row)[2 * i..2 * i + 2] == Cell(row[i])
  {
    if i > 0 {
      RenderRowAt(row[1..], i - 1);
      assert RenderRow(row)[2..] == RenderRow(row[1..]);
    }
  }

  /** Reading a drawn line back: a pair of blocks is dark, anything else light. */
  function ReadRow(line: string): (row: seq<bool>)
    requires |line| % 2 == 0
    ensures |row| * 2 == |line|
  {
    if line == [] then [] else [line[..2] == Dark] + ReadRow(line[2..])
  }

  /** Drawing a row and reading it back gives the row. */
  lemma {:induction false} ReadRenderedRow(row: seq<bool>)
    ensures ReadRow(RenderRow(row)) == row
  {
    if row != [] {
      var line := RenderRow(row);
      assert line[..2] == Cell(row[0]);
      assert line[2..] == RenderRow(row[1..]);
      assert Light != Dark by { assert Light[0] != Dark[0]; }
      ReadRenderedRow(row[1..]);
    }
  }

  /** Every rendered line of a matrix reads back as its row. */
  lemma ReadRenderedMatrix(matrix: seq<seq<bool>>, i: nat)
    requires i < |matrix|
    ensures |RenderMatrix(matrix)[i]| % 2 == 0
    ensures ReadRow(RenderMatrix(matrix)[i]) == matrix[i]
  {
    ReadRenderedRow(matrix[i]);
  }
}
