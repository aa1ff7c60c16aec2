/**
 * The block world of the voxel game (`website/lib/store.ts`): a texture
 * selected for the next cube, and the list of placed cubes, each at an
 * integer position with the texture it was placed with.
 */
module GameStore {
  import opened Seqs

  datatype CubeType = Dirt | Grass | Glass | Wood | Log

  datatype Position = Position(x: int, y: int, z: int)

  datatype Cube = Cube(id: string, pos: Position, texture: CubeType)

  /** The two cubes the world starts with. */
  function InitialCubes(): seq<Cube> {
    [Cube("1", Position(1, 1, 1), Dirt), Cube("2", Position(2, 1, 1), Grass)]
  }

  /** The test inside `removeCube`'s filter: a cube stays when any coordinate differs. */
  predicate Kept(cube: Cube, x: int, y: int, z: int) {
    cube.pos.x != x || cube.pos.y != y || cube.pos.z != z
  }

  /** The cubes `removeCube(x, y, z)` leaves. */
  function Remaining(cubes: seq<Cube>, x: int, y: int, z: int): seq<Cube> {
    Filter(cubes, (c: Cube) => Kept(c, x, y, z))
  }

  /** After removal no cube is at the position, and every cube elsewhere is still there. */
  lemma RemainingMembers(cubes: seq<Cube>, x: int, y: int, z: int, c: Cube)
    ensures c in Remaining(cubes, x, y, z) <==> c in cubes && c.pos != Position(x, y, z)
  {
    FilterMembers(cubes, (c: Cube) => Kept(c, x, y, z), c);
  }

  /** Removal works piece by piece, so the cubes that stay keep their relative order. */
  lemma RemainingConcat(a: seq<Cube>, b: seq<Cube>, x: int, y: int, z: int)
    ensures Remaining(a + b, x, y, z) == Remaining(a, x, y, z) + Remaining(b, x, y, z)
  {
    FilterConcat(a, b, (c: Cube) => Kept(c, x, y, z));
  }

  /** Removing at an empty position changes nothing. */
  lemma RemainingOfEmptyPosition(cubes: seq<Cube>, x: int, y: int, z: int)
    requires forall k :: 0 <= k < |cubes| ==> cubes[k].pos != Position(x, y, z)
    ensures Remaining(cubes, x, y, z) == cubes
  {
    FilterAllKept(cubes, (c: Cube) => Kept(c, x, y, z));
  }

  /** Removing where a cube was just added takes that cube away and leaves the rest as removal alone would. */
  lemma RemoveAfterAdd(cubes: seq<Cube>, x: int, y: int, z: int, id: string, texture: CubeType)
    ensures Remaining(cubes + [Cube(id, Position(x, y, z), texture)], x, y, z) == Remaining(cubes, x, y, z)
  {
    RemainingConcat(cubes, [Cube(id, Position(x, y, z), texture)], x, y, z);
    assert Remaining([Cube(id, Position(x, y, z), texture)], x, y, z) == [];
  }

  /** Removing twice at the same position is the same as removing once. */
  lemma RemoveIdempotent(cubes: seq<Cube>, x: int, y: int, z: int)
    ensures Remaining(Remaining(cubes, x, y, z), x, y, z) == Remaining(cubes, x, y, z)
  {
    var once := Remaining(cubes, x, y, z);
    FilterAllKept(once, (c: Cube) => Kept(c, x, y, z));
  }

  /** The store's state; each method is one `set` call of the source. */
  class GameState {
    var texture: CubeType
    var cubes: seq<Cube>

    /** The initial state: texture 'dirt' and the two initial cubes. */
    constructor ()
      ensures texture == Dirt && cubes == InitialCubes()
    {
      texture := Dirt;
      cubes := InitialCubes();
    }

    /** `addCube`: one cube at the position with the current texture, appended; `id` stands for the random id. */
    method AddCube(x: int, y: int, z: int, id: string)
      modifies this
      ensures cubes == old(cubes) + [Cube(id, Position(x, y, z), old(texture))]
      ensures texture == old(texture)
    {
      cubes := cubes + [Cube(id, Position(x, y, z), texture)];
    }

    /** `removeCube`: every cube at the position is dropped. */
    method RemoveCube(x: int, y: int, z: int)
      modifies this
      ensures cubes == Remaining(old(cubes), x, y, z)
      ensures forall k :: 0 <= k < |cubes| ==> cubes[k].pos != Position(x, y, z)
      ensures texture == old(texture)
    {
      cubes := Remaining(cubes, x, y, z);
    }

    /** `setTexture`: only the texture changes. */
    method SetTexture(t: CubeType)
      modifies this
      ensures texture == t && cubes == old(cubes)
    {
      texture := t;
    }

    /** `resetWorld`: the world is emptied and the texture kept. */
    method ResetWorld()
      modifies this
      ensures cubes == [] && texture == old(texture)
    {
      cubes := [];
    }
  }
}
