/**
 The ten reference patterns `DIGIT_TEMPLATES`, one 5 x 3 binary grid per
 digit, in digit order.
 */
module Templates {
  import opened Grid

  /** A grid of the recogniser's shape whose cells are all 0 or 1. */
  type Template = g: seq<seq<int>> | Shaped(g, GridRows, GridCols) && Binary(g)
    witness ZeroGrid(GridRows, GridCols)

  const DigitTemplates: seq<Template> := [
    [[1,1,1],
     [1,0,1],
     [1,0,1],
     [1,0,1],
     [1,1,1]],
    [[0,1,0],
     [1,1,0],
     [0,1,0],
     [0,1,0],
     [1,1,1]],
    [[1,1,1],
     [0,0,1],
     [1,1,1],
     [1,0,0],
     [1,1,1]],
    [[1,1,1],
     [0,0,1],
     [1,1,1],
     [0,0,1],
     [1,1,1]],
    [[1,0,1],
     [1,0,1],
     [1,1,1],
     [0,0,1],
     [0,0,1]],
    [[1,1,1],
     [1,0,0],
     [1,1,1],
     [0,0,1],
     [1,1,1]],
    [[1,1,1],
     [1,0,0],
     [1,1,1],
     [1,0,1],
     [1,1,1]],
    [[1,1,1],
     [0,0,1],
     [1,1,1],
     [0,0,1],
     [0,0,1]],
    [[1,1,1],
     [1,0,1],
     [1,1,1],
     [1,0,1],
     [1,1,1]],
    [[1,1,1],
     [1,0,1],
     [1,1,1],
     [0,0,1],
     [1,1,1]]
  ]

  /** No two digits share a template, so an exact pattern names one digit. */
  lemma TemplatesDistinct(i: nat, j: nat)
    requires i < |DigitTemplates| && j < |DigitTemplates| && i != j
    ensures DigitTemplates[i] != DigitTemplates[j]
  {
    var t := DigitTemplates;
    assert t[0][1] != t[1][1] && t[0][1] != t[2][1] && t[0][1] != t[3][1] && t[0][2] != t[4][2];
    assert t[0][2] != t[5][2] && t[0][2] != t[6][2] && t[0][1] != t[7][1] && t[0][2] != t[8][2];
    assert t[0][2] != t[9][2];
    assert t[1][0] != t[2][0] && t[1][0] != t[3][0] && t[1][0] != t[4][0] && t[1][0] != t[5][0];
    assert t[1][0] != t[6][0] && t[1][0] != t[7][0] && t[1][0] != t[8][0] && t[1][0] != t[9][0];
    assert t[2][3] != t[3][3] && t[2][0] != t[4][0] && t[2][1] != t[5][1] && t[2][1] != t[6][1];
    assert t[2][3] != t[7][3] && t[2][1] != t[8][1] && t[2][1] != t[9][1];
    assert t[3][0] != t[4][0] && t[3][1] != t[5][1] && t[3][1] != t[6][1] && t[3][4] != t[7][4];
    assert t[3][1] != t[8][1] && t[3][1] != t[9][1];
    assert t[4][0] != t[5][0] && t[4][0] != t[6][0] && t[4][0] != t[7][0] && t[4][0] != t[8][0];
    assert t[4][0] != t[9][0];
    assert t[5][3] != t[6][3] && t[5][1] != t[7][1] && t[5][1] != t[8][1] && t[5][1] != t[9][1];
    assert t[6][1] != t[7][1] && t[6][1] != t[8][1] && t[6][3] != t[9][3];
    assert t[7][1] != t[8][1] && t[7][1] != t[9][1];
    assert t[8][3] != t[9][3];
  }
}
