/**
 Model loading of the resource manager: `loadModel`, which picks a loader by
 the path's extension, and `loadOBJMesh`, which turns the indexed model an OBJ
 file parses to into one vertex per position.

 Parsing the OBJ text is the job of `OBJModel`, whose code is not part of
 this model: it is the `parse` parameter, a total function from the file's
 text to an indexed model. Vectors are values; no arithmetic is done on them.
 */
module Models {
  import opened Strings
  import opened Results
  import TextLoader

  datatype Vector2 = Vector2(x: real, y: real)

  datatype Vector3 = Vector3(x: real, y: real, z: real)

  /** `new Vector3f()`. */
  const Zero3: Vector3 := Vector3(0.0, 0.0, 0.0)

  /** A vertex as the mesh stores it: position, texture coordinate, normal, tangent and bitangent. */
  datatype Vertex = Vertex(position: Vector3, texCoord: Vector2, normal: Vector3, tangent: Vector3, bitangent: Vector3)

  /** What `OBJModel.toIndexedModel` yields: attribute lists and the index list. */
  datatype IndexedModel = IndexedModel(
    positions: seq<Vector3>,
    texCoords: seq<Vector2>,
    normals: seq<Vector3>,
    indices: seq<int>)

  /**
   `new OBJModel(reader).toIndexedModel()` on a file's text: the indexed
   model, or the unchecked exception the parser throws.
   */
  type Parser = string -> Result<IndexedModel>

  /** A loaded mesh: the path it was loaded from, its vertices and its indices. */
  datatype Mesh = Mesh(name: string, vertices: seq<Vertex>, indices: seq<int>)

  /** The vertex `loadOBJMesh` builds for position `i`. */
  function VertexAt(m: IndexedModel, i: nat): (v: Vertex)
    requires i < |m.positions| && i < |m.texCoords| && i < |m.normals|
    ensures v.position == m.positions[i] && v.texCoord == m.texCoords[i] && v.normal == m.normals[i]
    ensures v.tangent == Zero3 && v.bitangent == Zero3
  {
    Vertex(m.positions[i], m.texCoords[i], m.normals[i], Zero3, Zero3)
  }

  /** Every attribute list is long enough for one vertex per position. */
  predicate Complete(m: IndexedModel) {
    |m.positions| <= |m.texCoords| && |m.positions| <= |m.normals|
  }

  /**
   The vertex list of `loadOBJMesh`, defined position by position from the
   front: a missing texture coordinate or normal is the `IndexOutOfBounds`
   that `ArrayList.get` throws.
   */
  function Flatten(m: IndexedModel): (r: Result<seq<Vertex>>)
    ensures r.Err? <==> !Complete(m)
    ensures r.Err? ==> r.error == IndexOutOfBounds
    ensures r.Ok? ==> |r.value| == |m.positions|
  {
    FlattenFrom(m, 0)
  }

  function FlattenFrom(m: IndexedModel, i: nat): (r: Result<seq<Vertex>>)
    requires i <= |m.positions|
    ensures r.Err? <==> i < |m.positions| && !Complete(m)
    ensures r.Err? ==> r.error == IndexOutOfBounds
    ensures r.Ok? ==> |r.value| == |m.positions| - i
    decreases |m.positions| - i
  {
    if i == |m.positions| then Ok([])
    else if i >= |m.texCoords| || i >= |m.normals| then Err(IndexOutOfBounds)
    else
      var rest :- FlattenFrom(m, i + 1);
      Ok([VertexAt(m, i)] + rest)
  }

  /**
   The loop of `loadOBJMesh`: one vertex appended per position, in order. It
   computes the same list as `Flatten`.
   */
  method FlattenVertices(m: IndexedModel) returns (r: Result<seq<Vertex>>)
    ensures r == Flatten(m)
  {
    var vertices: seq<Vertex> := [];
    var i := 0;
    while i < |m.positions|
      invariant 0 <= i <= |m.positions|
      invariant i <= |m.texCoords| && i <= |m.normals|
      invariant |vertices| == i
      invariant forall j :: 0 <= j < i ==> vertices[j] == VertexAt(m, j)
    {
      if i >= |m.texCoords| || i >= |m.normals| {
        return Err(IndexOutOfBounds);
      }
      vertices := vertices + [VertexAt(m, i)];
      i := i + 1;
    }
    FlattenContents(m);
    assert vertices == Flatten(m).value;
    return Ok(vertices);
  }

  /** Vertex `i` of the flattened list is built from the `i`th entry of each attribute list. */
  lemma {:induction false} FlattenFromContents(m: IndexedModel, i: nat)
    requires i <= |m.positions| && Complete(m)
    ensures FlattenFrom(m, i).Ok?
    ensures forall j :: i <= j < |m.positions| ==> FlattenFrom(m, i).value[j - i] == VertexAt(m, j)
    decreases |m.positions| - i
  {
    if i < |m.positions| {
      FlattenFromContents(m, i + 1);
    }
  }

  lemma FlattenContents(m: IndexedModel)
    requires Complete(m)
    ensures Flatten(m).Ok?
    ensures forall j :: 0 <= j < |m.positions| ==> Flatten(m).value[j] == VertexAt(m, j)
  {
    FlattenFromContents(m, 0);
    assert Flatten(m) == FlattenFrom(m, 0);
  }

  function Positions(vs: seq<Vertex>): (r: seq<Vector3>)
    ensures |r| == |vs| && forall i :: 0 <= i < |vs| ==> r[i] == vs[i].position
  {
    seq(|vs|, i requires 0 <= i < |vs| => vs[i].position)
  }

  function TexCoords(vs: seq<Vertex>): (r: seq<Vector2>)
    ensures |r| == |vs| && forall i :: 0 <= i < |vs| ==> r[i] == vs[i].texCoord
  {
    seq(|vs|, i requires 0 <= i < |vs| => vs[i].texCoord)
  }

  function Normals(vs: seq<Vertex>): (r: seq<Vector3>)
    ensures |r| == |vs| && forall i :: 0 <= i < |vs| ==> r[i] == vs[i].normal
  {
    seq(|vs|, i requires 0 <= i < |vs| => vs[i].normal)
  }

  /**
   Flattening keeps the positions and, cut to the number of positions, the
   texture coordinates and the normals: the attribute lists can be read back
   from the vertices.
   */
  lemma FlattenKeepsAttributes(m: IndexedModel)
    requires Complete(m)
    ensures Flatten(m).Ok?
    ensures Positions(Flatten(m).value) == m.positions
    ensures TexCoords(Flatten(m).value) == m.texCoords[..|m.positions|]
    ensures Normals(Flatten(m).value) == m.normals[..|m.positions|]
  {
    FlattenContents(m);
  }

  /** Vertices with zero tangents and bitangents are exactly what their own attribute lists flatten to. */
  lemma FlattenOfAttributes(vs: seq<Vertex>, indices: seq<int>)
    requires forall i :: 0 <= i < |vs| ==> vs[i].tangent == Zero3 && vs[i].bitangent == Zero3
    ensures Flatten(IndexedModel(Positions(vs), TexCoords(vs), Normals(vs), indices)) == Ok(vs)
  {
    var m := IndexedModel(Positions(vs), TexCoords(vs), Normals(vs), indices);
    FlattenContents(m);
    assert forall j :: 0 <= j < |vs| ==> VertexAt(m, j) == vs[j];
    assert Flatten(m).value == vs;
  }

  /**
   `loadOBJMesh`: a file that cannot be opened is a `FileNotFoundException`,
   and an exception of the parser propagates; otherwise the parsed model is
   flattened and its indices copied unchanged, and the mesh is named by the
   path.
   */
  function LoadOBJMesh(fs: TextLoader.FileSystem, parse: Parser, path: string): (r: Result<Mesh>)
    ensures path !in fs ==> r == Err(FileNotFound(path))
    ensures path in fs && parse(fs[path]).Err? ==> r == Err(parse(fs[path]).error)
    ensures path in fs && parse(fs[path]).Ok? ==> (r.Err? <==> !Complete(parse(fs[path]).value))
    ensures path in fs && parse(fs[path]).Ok? && r.Err? ==> r.error == IndexOutOfBounds
    ensures r.Ok? ==> path in fs && parse(fs[path]).Ok?
    ensures r.Ok? ==> r.value.name == path && r.value.indices == parse(fs[path]).value.indices
    ensures r.Ok? ==> |r.value.vertices| == |parse(fs[path]).value.positions|
  {
    if path !in fs then Err(FileNotFound(path))
    else
      var model :- parse(fs[path]);
      var vertices :- Flatten(model);
      Ok(Mesh(path, vertices, model.indices))
  }

  /** Vertex `i` of a loaded OBJ mesh is position, texture coordinate and normal `i`, then two zero vectors. */
  lemma LoadOBJMeshVertices(fs: TextLoader.FileSystem, parse: Parser, path: string, i: nat)
    requires LoadOBJMesh(fs, parse, path).Ok? && i < |LoadOBJMesh(fs, parse, path).value.vertices|
    ensures var m := parse(fs[path]).value;
      LoadOBJMesh(fs, parse, path).value.vertices[i]
        == Vertex(m.positions[i], m.texCoords[i], m.normals[i], Zero3, Zero3)
  {
    FlattenContents(parse(fs[path]).value);
  }

  /**
   The extension as `loadModel` takes it: everything from the last `.` on. A
   path without a `.` makes `substring(-1)` throw.
   */
  function Extension(path: string): (r: Result<string>)
    ensures r.Err? <==> '.' !in path
    ensures r.Err? ==> r.error == IndexOutOfBounds
    ensures r.Ok? ==> 0 < |r.value| && r.value[0] == '.' && '.' !in r.value[1..] && EndsWith(path, r.value)
  {
    var dot := LastIndexOf(path, '.');
    if dot < 0 then Err(IndexOutOfBounds)
    else
      assert forall j :: 0 <= j < |path| - dot - 1 ==> path[dot..][1..][j] == path[dot + 1 + j];
      Ok(path[dot..])
  }

  /** The one supported format: an extension ending in `obj`. */
  predicate IsOBJExtension(extension: string) {
    EndsWith(extension, "obj")
  }

  /**
   `loadModel`: the OBJ loader for an extension ending in `obj`; otherwise,
   and when the file cannot be opened, the error is logged and the program
   exits with status 1. Any other exception propagates.
   */
  function LoadModel(fs: TextLoader.FileSystem, parse: Parser, path: string): (r: Result<Mesh>)
    ensures '.' !in path ==> r == Err(IndexOutOfBounds)
    ensures '.' in path && !EndsWith(path, "obj") ==> r == Err(Exit(1))
    ensures '.' in path && EndsWith(path, "obj") && path !in fs ==> r == Err(Exit(1))
    ensures r.Ok? ==> '.' in path && EndsWith(path, "obj") && path in fs
    ensures '.' in path && EndsWith(path, "obj") && path in fs ==>
      var loaded := LoadOBJMesh(fs, parse, path);
      r == if loaded.Err? && loaded.error.FileNotFound? then Err(Exit(1)) else loaded
  {
    var extension :- Extension(path);
    ExtensionEndsInObj(path);
    if IsOBJExtension(extension) then
      match LoadOBJMesh(fs, parse, path)
      case Err(FileNotFound(_)) => Err(Exit(1))
      case other => other
    else Err(Exit(1))
  }

  /** The extension ends in `obj` exactly when the path does: no `.` can sit among its last three characters. */
  lemma ExtensionEndsInObj(path: string)
    requires '.' in path
    ensures IsOBJExtension(Extension(path).value) <==> EndsWith(path, "obj")
  {
    var e := Extension(path).value;
    if EndsWith(path, "obj") {
      var dot := LastIndexOf(path, '.');
      assert path[|path| - 3..] == "obj";
      assert path[|path| - 1] == 'j' && path[|path| - 2] == 'b' && path[|path| - 3] == 'o';
      assert dot < |path| - 3;
      assert e[|e| - 3..] == path[|path| - 3..];
    }
  }
}
