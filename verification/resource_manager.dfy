/**
 The resource manager's static state and its mesh operations: the two
 settings `initialize` stores, the mesh map `getMeshResource` and
 `releaseMeshResource` work on, and the texture map, which no operation of
 the class touches.

 The static fields are one `Manager` value; an operation returns the new
 value. `Tex` stands for `Texture2D`, whose code is not part of this model.
 */
module ResourceManager {
  import opened Results
  import Paths
  import TextLoader
  import opened Models
  import opened ResourceCache

  datatype Manager<Tex> = Manager(config: Paths.Config, meshes: Cache<Mesh>, textures: Cache<Tex>)

  /** The state after class initialisation: empty settings and empty maps. */
  function Initial<Tex>(): (m: Manager<Tex>)
    ensures m.config.programFolderName == "" && m.config.internalResourcePrefix == ""
    ensures m.meshes == map[] && m.textures == map[]
  {
    Manager(Paths.InitialConfig, map[], map[])
  }

  /** `initialize`: replaces both settings and leaves the maps alone. */
  function Initialize<Tex>(m: Manager<Tex>, programFolderName: string, internalPrefix: string): (r: Manager<Tex>)
    ensures r.config.programFolderName == programFolderName
    ensures r.config.internalResourcePrefix == internalPrefix
    ensures r.meshes == m.meshes && r.textures == m.textures
  {
    m.(config := Paths.Initialize(programFolderName, internalPrefix))
  }

  /** The loader `getMeshResource` calls on a miss. */
  function MeshLoader(fs: TextLoader.FileSystem, parse: Models.Parser): string -> Result<Mesh> {
    path => LoadModel(fs, parse, path)
  }

  /**
   `getMeshResource`: the mesh for `path`, loaded by `loadModel` on the first
   request and shared afterwards. Only the mesh map changes.
   */
  function GetMeshResource<Tex>(m: Manager<Tex>, fs: TextLoader.FileSystem, parse: Models.Parser, path: string)
    : (r: Result<(Manager<Tex>, Mesh)>)
    ensures path in m.meshes ==> r.Ok? && r.value.1 == m.meshes[path].resource
    ensures path !in m.meshes ==> (r.Ok? <==> LoadModel(fs, parse, path).Ok?)
    ensures path !in m.meshes && r.Err? ==> r.error == LoadModel(fs, parse, path).error
    ensures path !in m.meshes && r.Ok? ==> r.value.1 == LoadModel(fs, parse, path).value
    ensures r.Ok? ==> r.value.0.config == m.config && r.value.0.textures == m.textures
    ensures r.Ok? ==> path in r.value.0.meshes && r.value.0.meshes[path].resource == r.value.1
    ensures path !in m.meshes && r.Ok? ==> r.value.0.meshes[path] == Entry(1, r.value.1)
    ensures path in m.meshes ==> r.value.0.meshes[path] == Entry(Wrap32(m.meshes[path].count + 1), m.meshes[path].resource)
    ensures r.Ok? ==> r.value.0.meshes.Keys == m.meshes.Keys + {path}
    ensures r.Ok? ==> forall k :: k in m.meshes && k != path ==> r.value.0.meshes[k] == m.meshes[k]
  {
    var acquired :- Acquire(m.meshes, path, MeshLoader(fs, parse));
    Ok((m.(meshes := acquired.cache), acquired.resource))
  }

  /**
   `releaseMeshResource`: drops one reference to the mesh for `path`; a path
   never requested is a `NullPointerException`. Only the mesh map changes.
   */
  function ReleaseMeshResource<Tex>(m: Manager<Tex>, path: string): (r: Result<Manager<Tex>>)
    ensures path !in m.meshes ==> r == Err(NullPointer)
    ensures path in m.meshes ==> r.Ok?
    ensures r.Ok? ==> r.value.config == m.config && r.value.textures == m.textures
    ensures path in m.meshes ==> (path in r.value.meshes <==> Wrap32(m.meshes[path].count - 1) > 0)
    ensures path in m.meshes && path in r.value.meshes
      ==> r.value.meshes[path] == Entry(Wrap32(m.meshes[path].count - 1), m.meshes[path].resource)
    ensures r.Ok? ==> r.value.meshes.Keys <= m.meshes.Keys
    ensures r.Ok? ==> forall k :: k in m.meshes && k != path ==> k in r.value.meshes && r.value.meshes[k] == m.meshes[k]
  {
    var meshes :- Release(m.meshes, path);
    Ok(m.(meshes := meshes))
  }

  /** A mesh that loads is a mesh of an `obj` file that exists, named by its path. */
  lemma LoadedMeshIsOBJ<Tex>(m: Manager<Tex>, fs: TextLoader.FileSystem, parse: Models.Parser, path: string)
    requires path !in m.meshes && GetMeshResource(m, fs, parse, path).Ok?
    ensures '.' in path && Strings.EndsWith(path, "obj") && path in fs
    ensures GetMeshResource(m, fs, parse, path).value.1.name == path
  {
  }

  /** An unsupported format or a missing file ends the program and leaves no entry. */
  lemma UnsupportedModelExits<Tex>(m: Manager<Tex>, fs: TextLoader.FileSystem, parse: Models.Parser, path: string)
    requires path !in m.meshes && '.' in path
    requires !Strings.EndsWith(path, "obj") || path !in fs
    ensures GetMeshResource(m, fs, parse, path) == Err(Exit(1))
  {
  }

  /**
   Requesting a mesh that is not loaded yet and then releasing it gives back
   the state as it was.
   */
  lemma GetThenReleaseRestores<Tex>(m: Manager<Tex>, fs: TextLoader.FileSystem, parse: Models.Parser, path: string)
    requires path !in m.meshes && GetMeshResource(m, fs, parse, path).Ok?
    ensures ReleaseMeshResource(GetMeshResource(m, fs, parse, path).value.0, path) == Ok(m)
  {
    var loaded := GetMeshResource(m, fs, parse, path).value;
    ReleaseLastReference(m.meshes, path, loaded.1);
  }

  /** Requests for one path between its first load and its release all hand out the first mesh. */
  lemma RepeatedGetShares<Tex>(m: Manager<Tex>, fs: TextLoader.FileSystem, parse: Models.Parser, path: string)
    requires GetMeshResource(m, fs, parse, path).Ok?
    ensures var (after, mesh) := GetMeshResource(m, fs, parse, path).value;
      GetMeshResource(after, fs, parse, path) == Ok((after.(meshes := after.meshes[path := Entry(Wrap32(after.meshes[path].count + 1), mesh)]), mesh))
  {
  }
}
