/** The Universe: a width x height toroidal Game of Life held in two
    equally long cell buffers, of which `toggle` selects the live one. */
module Game {
  import opened Grid

  class Universe {
    var width: u32
    var height: u32
    /** True when `bufferA` holds the current generation. */
    var toggle: bool
    var bufferA: array<bool>
    var bufferB: array<bool>

    /** Both buffers hold one cell per grid position, are two distinct
        objects, and every index `row * width + col` fits in a `u32`. */
    ghost predicate Valid()
      reads this
    {
      && bufferA != bufferB
      && bufferA.Length == width * height
      && bufferB.Length == width * height
      && width * height < U32_LIMIT
    }

    /** The buffer holding the current generation. */
    function Active(): (a: array<bool>)
      reads this
      requires Valid()
      ensures a == bufferA || a == bufferB
    {
      if toggle then bufferA else bufferB
    }

    /** The buffer the next generation is written into. */
    function Scratch(): (a: array<bool>)
      reads this
      requires Valid()
      ensures a != Active() && (a == bufferA || a == bufferB)
    {
      if toggle then bufferB else bufferA
    }

    /** `cells`: the current generation, one entry per grid position in
        row-major order, read from the buffer `toggle` selects. */
    function Cells(): (s: seq<bool>)
      reads this, bufferA, bufferB
      requires Valid()
      ensures |s| == width * height
      ensures s == Active()[..]
    {
      if toggle then bufferA[..] else bufferB[..]
    }

    /** `new`: seeds cell `i` alive when `i` is even or a multiple of 7, with
        `bufferA` active and `bufferB` all dead. */
    constructor (width: u32, height: u32)
      requires width * height < U32_LIMIT
      ensures Valid() && fresh(bufferA) && fresh(bufferB)
      ensures this.width == width && this.height == height && toggle
      ensures |Cells()| == width * height
      ensures forall i :: 0 <= i < |Cells()| ==> (Cells()[i] <==> i % 2 == 0 || i % 7 == 0)
      ensures forall i :: 0 <= i < bufferB.Length ==> !bufferB[i]
    {
      MulMonotone(0, width, height);
      var size := width * height;
      var initial := new bool[size](_ => false);
      for i := 0 to size
        invariant forall j :: 0 <= j < i ==> (initial[j] <==> j % 2 == 0 || j % 7 == 0)
      {
        initial[i] := i % 2 == 0 || i % 7 == 0;
      }
      this.width := width;
      this.height := height;
      toggle := true;
      bufferA := initial;
      bufferB := new bool[size](_ => false);
    }

    /** `tick`: writes the next generation of the active buffer into the
        scratch buffer, reading only the active one, then flips `toggle`.
        The dimensions and both buffers stay the same objects of the same
        length, and the former active buffer is left as it was. */
    method Tick()
      requires Valid()
      modifies this, Scratch()
      ensures Valid()
      ensures width == old(width) && height == old(height)
      ensures bufferA == old(bufferA) && bufferB == old(bufferB)
      ensures toggle == !old(toggle)
      ensures Active() == old(Scratch()) && Scratch() == old(Active())
      ensures Scratch()[..] == old(Cells())
      ensures Cells() == Step(old(Cells()), width, height)
      ensures FollowsRule(old(Cells()), Cells(), width, height)
    {
      var active, inactive := Active(), Scratch();
      WriteGeneration(active, inactive, width, height);
      toggle := !toggle;
      StepFollowsRule(old(Cells()), width, height);
    }
  }

  /** The body of `tick`'s two loops: visits every (row, col) in row-major
      order and writes into `scratch` the rule's result for the cell of
      `active` at the same position. Only `scratch` is written, so every
      count reads the current generation. */
  method WriteGeneration(active: array<bool>, scratch: array<bool>, width: u32, height: u32)
    requires active != scratch
    requires active.Length == width * height && scratch.Length == width * height
    modifies scratch
    ensures scratch[..] == Step(active[..], width, height)
  {
    ghost var cells := active[..];
    ghost var next := Step(cells, width, height);
    // `done` is the flat index of the next cell to be written.
    ghost var done := 0;
    for row := 0 to height
      invariant active[..] == cells
      invariant done == row * width && done <= scratch.Length
      invariant scratch[..done] == next[..done]
    {
      MulMonotone(row + 1, height, width);
      assert (row + 1) * width == row * width + width;
      ghost var rowEnd := done + width;
      for col := 0 to width
        invariant active[..] == cells
        invariant done == rowEnd - width + col && rowEnd <= scratch.Length
        invariant scratch[..done] == next[..done]
      {
        var idx := GetIndex(width, height, row, col);
        assert idx == row * width + col == done;
        var cell := active[idx];
        var count := Count(active[..], width, height, row, col);
        scratch[idx] := NextCell(cell, count);
        StepAt(cells, width, height, row, col);
        PrefixGrows(scratch[..], next, done);
        done := done + 1;
      }
    }
    assert scratch[..] == scratch[..done] && next == next[..done];
  }

  /** Two sequences that agree on their first `d` entries and on entry `d`
      agree on their first `d + 1`. */
  lemma PrefixGrows(a: seq<bool>, b: seq<bool>, d: nat)
    requires d < |a| && d < |b|
    requires a[..d] == b[..d] && a[d] == b[d]
    ensures a[..d + 1] == b[..d + 1]
  {
  }
}
