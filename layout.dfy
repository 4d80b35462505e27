/**
 * The image grid of src/main.js: `calculatePosition` with its `POSITION_CONFIG` table,
 * and the two functions that move entries of `flowerMeshes` in place. A mesh position
 * is a plain record; positions are exact reals.
 */
module Layout {
  import opened Wrappers
  import opened Arithmetic

  datatype Vec3 = Vec3(x: real, y: real, z: real)

  /** An entry of `customPositions`; `z` may be left out. */
  datatype CustomPosition = CustomPosition(x: real, y: real, z: Option<real>)

  datatype PositionConfig = PositionConfig(cols: nat, spacing: real, customPositions: seq<CustomPosition>)

  const FLOWER_IMAGES: seq<string> := [
    "/flower1.png", "/flower2.png", "/flower3.png",
    "/flower4.png", "/flower5.png", "/flower6.png",
    "/flower7.png", "/flower8.png", "/flower9.png"
  ]

  const POSITION_CONFIG := PositionConfig(3, 3.5, [
    CustomPosition(0.0, 0.0, Some(1.0)),
    CustomPosition(2.5, 3.0, Some(0.0)),
    CustomPosition(-1.0, 3.0, Some(1.0)),
    CustomPosition(-3.5, 1.5, Some(0.0)),
    CustomPosition(-3.0, -2.0, Some(0.0)),
    CustomPosition(0.5, 4.0, Some(0.0)),
    CustomPosition(3.0, 0.0, Some(0.0)),
    CustomPosition(-0.5, -3.0, Some(0.0)),
    CustomPosition(2.5, -2.5, Some(0.0))
  ])

  /** `Math.ceil(a / b)` for natural numbers: the least `q` with `q * b >= a`. */
  function CeilDiv(a: nat, b: nat): (q: nat)
    requires b > 0
    ensures q * b >= a
    ensures q == 0 || (q - 1) * b < a
  {
    var q := (a + b - 1) / b;
    assert (a + b - 1) == q * b + (a + b - 1) % b;
    if q == 0 then q
    else
      assert (q - 1) * b == q * b - b;
      q
  }

  /**
   * `Math.floor(index / cols)` and `index % cols`: the row and column of `index` in a
   * grid filled row by row.
   */
  function GridCell(index: nat, cols: nat): (cell: (nat, nat))
    requires cols > 0
    ensures cell.1 < cols && cell.0 * cols + cell.1 == index
  {
    (index / cols, index % cols)
  }

  /**
   * `calculatePosition(index, total)` under a given configuration: an index with a
   * custom entry takes it verbatim (z defaults to 0), any other index is a grid cell.
   */
  function Position(config: PositionConfig, index: nat, total: nat): (p: Vec3)
    requires config.cols > 0
    ensures index < |config.customPositions| ==>
      var custom := config.customPositions[index];
      p.x == custom.x && p.y == custom.y && p.z == (if custom.z.Some? then custom.z.value else 0.0)
    ensures index >= |config.customPositions| ==> p.z == 0.0
  {
    if index < |config.customPositions| then
      var custom := config.customPositions[index];
      Vec3(custom.x, custom.y, custom.z.GetOr(0.0))
    else
      var (row, col) := GridCell(index, config.cols);
      var offsetX := (config.cols - 1) as real * config.spacing / 2.0;
      var offsetY := (CeilDiv(total, config.cols) - 1) as real * config.spacing / 2.0;
      Vec3(col as real * config.spacing - offsetX, -(row as real) * config.spacing + offsetY, 0.0)
  }

  /** `calculatePosition(index, total)` with the shipped `POSITION_CONFIG`. */
  function CalculatePosition(index: nat, total: nat): Vec3 {
    Position(POSITION_CONFIG, index, total)
  }

  /** The row and column of a grid cell are the only ones that name it. */
  lemma GridCellUnique(index: nat, cols: nat, row: nat, col: nat)
    requires cols > 0 && col < cols && row * cols + col == index
    ensures GridCell(index, cols) == (row, col)
  {
    DivModUnique(index, cols, row, col);
  }

  /**
   * In the grid branch, the first and the last column of a row lie mirror-symmetric
   * about x = 0, on the same height, at z = 0.
   */
  lemma ColumnsMirror(config: PositionConfig, row: nat, total: nat)
    requires config.cols > 0 && row * config.cols >= |config.customPositions|
    ensures var first := Position(config, row * config.cols, total);
            var last := Position(config, row * config.cols + config.cols - 1, total);
            first.x == -last.x && first.y == last.y && first.z == 0.0 && last.z == 0.0
  {
    GridCellUnique(row * config.cols, config.cols, row, 0);
    GridCellUnique(row * config.cols + config.cols - 1, config.cols, row, config.cols - 1);
  }

  /**
   * In the grid branch, a cell of the first row and the cell of the same column in the
   * last row, the row `ceil(total / cols) - 1`, lie mirror-symmetric about y = 0.
   */
  lemma RowsMirror(config: PositionConfig, col: nat, total: nat)
    requires config.cols > 0 && col < config.cols && total > 0
    requires col >= |config.customPositions|
    ensures var lastRow := CeilDiv(total, config.cols) - 1;
            var top := Position(config, col, total);
            var bottom := Position(config, lastRow * config.cols + col, total);
            top.y == -bottom.y && top.x == bottom.x && top.z == 0.0 && bottom.z == 0.0
  {
    var rows := CeilDiv(total, config.cols);
    assert rows > 0;
    GridCellUnique(col, config.cols, 0, col);
    GridCellUnique((rows - 1) * config.cols + col, config.cols, rows - 1, col);
  }

  /** The grid-branch position of the cell at `row`, `col`, with the offsets that centre the grid. */
  lemma GridPoint(config: PositionConfig, index: nat, total: nat, row: nat, col: nat)
    requires config.cols > 0 && index >= |config.customPositions|
    requires col < config.cols && row * config.cols + col == index
    ensures var offsetX := (config.cols - 1) as real * config.spacing / 2.0;
            var offsetY := (CeilDiv(total, config.cols) - 1) as real * config.spacing / 2.0;
            Position(config, index, total)
              == Vec3(col as real * config.spacing - offsetX, -(row as real) * config.spacing + offsetY, 0.0)
  {
    GridCellUnique(index, config.cols, row, col);
  }

  /** In the grid branch, the next cell of a row is one `spacing` to the right, at the same height. */
  lemma GridStepRight(config: PositionConfig, index: nat, total: nat, row: nat, col: nat)
    requires config.cols > 0 && index >= |config.customPositions|
    requires col + 1 < config.cols && row * config.cols + col == index
    ensures Position(config, index + 1, total).x == Position(config, index, total).x + config.spacing
    ensures Position(config, index + 1, total).y == Position(config, index, total).y
  {
    GridPoint(config, index, total, row, col);
    GridPoint(config, index + 1, total, row, col + 1);
    assert (col + 1) as real * config.spacing == col as real * config.spacing + config.spacing;
  }

  /** In the grid branch, the cell below is one `spacing` lower, in the same column. */
  lemma GridStepDown(config: PositionConfig, index: nat, total: nat, row: nat, col: nat)
    requires config.cols > 0 && index >= |config.customPositions|
    requires col < config.cols && row * config.cols + col == index
    ensures Position(config, index + config.cols, total).y == Position(config, index, total).y - config.spacing
    ensures Position(config, index + config.cols, total).x == Position(config, index, total).x
  {
    GridPoint(config, index, total, row, col);
    GridPoint(config, index + config.cols, total, row + 1, col);
    assert -((row + 1) as real) * config.spacing == -(row as real) * config.spacing - config.spacing;
  }

  /**
   * In the grid branch, neighbouring cells are `spacing` apart: the next cell of a row is
   * one `spacing` to the right at the same height, and the cell below is one `spacing`
   * lower in the same column.
   */
  lemma GridSpacing(config: PositionConfig, index: nat, total: nat)
    requires config.cols > 0 && index >= |config.customPositions|
    ensures index % config.cols + 1 < config.cols ==>
      && Position(config, index + 1, total).x == Position(config, index, total).x + config.spacing
      && Position(config, index + 1, total).y == Position(config, index, total).y
    ensures && Position(config, index + config.cols, total).y == Position(config, index, total).y - config.spacing
            && Position(config, index + config.cols, total).x == Position(config, index, total).x
  {
    var (row, col) := GridCell(index, config.cols);
    if col + 1 < config.cols {
      GridStepRight(config, index, total, row, col);
    }
    GridStepDown(config, index, total, row, col);
  }

  /** With the shipped table every one of the nine images takes its custom position verbatim. */
  lemma ShippedPositionsAreCustom(index: nat)
    requires index < |FLOWER_IMAGES|
    ensures var custom := POSITION_CONFIG.customPositions[index];
            CalculatePosition(index, |FLOWER_IMAGES|) == Vec3(custom.x, custom.y, custom.z.GetOr(0.0))
  {
  }

  /** The part of an entry of `flowerMeshes` the positioning code touches. */
  datatype FlowerEntry = FlowerEntry(meshPosition: Vec3, initialPosition: Option<Vec3>)

  /** `mesh.position.set(p)`, and `initialPosition := p` when the entry has one. */
  function MovedTo(e: FlowerEntry, p: Vec3): (moved: FlowerEntry)
    ensures moved.meshPosition == p
    ensures moved.initialPosition.Some? == e.initialPosition.Some?
    ensures moved.initialPosition.Some? ==> moved.initialPosition.value == p
  {
    FlowerEntry(p, if e.initialPosition.Some? then Some(p) else None)
  }

  /** The module-level `flowerMeshes` list, filled as the images finish loading. */
  class FlowerGallery {
    var flowerMeshes: seq<FlowerEntry>

    constructor (loaded: seq<FlowerEntry>)
      ensures flowerMeshes == loaded
    {
      flowerMeshes := loaded;
    }

    /**
     * `updateFlowerPosition(index, x, y, z)`: moves entry `index` if it is loaded;
     * otherwise changes nothing and warns.
     */
    method UpdateFlowerPosition(index: int, x: real, y: real, z: real) returns (warned: bool)
      modifies this
      ensures warned <==> !(0 <= index < |old(flowerMeshes)|)
      ensures |flowerMeshes| == |old(flowerMeshes)|
      ensures forall k :: 0 <= k < |flowerMeshes| && k != index ==> flowerMeshes[k] == old(flowerMeshes[k])
      ensures !warned ==> flowerMeshes[index] == MovedTo(old(flowerMeshes[index]), Vec3(x, y, z))
    {
      if 0 <= index < |flowerMeshes| {
        var entry := flowerMeshes[index];
        entry := entry.(meshPosition := Vec3(x, y, z));
        if entry.initialPosition.Some? {
          entry := entry.(initialPosition := Some(Vec3(x, y, z)));
        }
        flowerMeshes := flowerMeshes[index := entry];
        warned := false;
      } else {
        warned := true;
      }
    }

    /**
     * `updateAllPositions()`: moves every entry `k` to `calculatePosition(k, 9)`,
     * in list order.
     */
    method UpdateAllPositions()
      modifies this
      ensures |flowerMeshes| == |old(flowerMeshes)|
      ensures forall k :: 0 <= k < |flowerMeshes| ==>
        flowerMeshes[k] == MovedTo(old(flowerMeshes[k]), CalculatePosition(k, |FLOWER_IMAGES|))
    {
      var index := 0;
      while index < |flowerMeshes|
        invariant 0 <= index <= |flowerMeshes| == |old(flowerMeshes)|
        invariant forall k :: 0 <= k < index ==>
          flowerMeshes[k] == MovedTo(old(flowerMeshes[k]), CalculatePosition(k, |FLOWER_IMAGES|))
        invariant forall k :: index <= k < |flowerMeshes| ==> flowerMeshes[k] == old(flowerMeshes[k])
      {
        var position := CalculatePosition(index, |FLOWER_IMAGES|);
        var entry := flowerMeshes[index].(meshPosition := position);
        if entry.initialPosition.Some? {
          entry := entry.(initialPosition := Some(position));
        }
        flowerMeshes := flowerMeshes[index := entry];
        index := index + 1;
      }
    }
  }
}
