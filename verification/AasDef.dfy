/** The tables of an area awareness world that the clustering, compaction and
    alternative-route code share. */
module AasDef {

  // Area contents are flag words; 8, 32 and 512 mark the three kinds of portals.
  type Flags = bv32

  const AREACONTENTS_CLUSTERPORTAL: Flags := 8
  const AREACONTENTS_ROUTEPORTAL: Flags := 32
  const AREACONTENTS_VIEWPORTAL: Flags := 512

  const AREA_GROUNDED: Flags := 1

  const FACE_SOLID: Flags := 1
  const FACE_LADDER: Flags := 2

  // Coordinates are copied and never computed with: a vector is three opaque words.
  datatype Vec3 = Vec3(x: int, y: int, z: int)

  datatype Reachability = Reachability(
    areanum: int, facenum: int, edgenum: int, start: Vec3, end: Vec3, traveltype: int, traveltime: int)

  datatype AreaSettings = AreaSettings(
    contents: Flags, areaflags: Flags, presencetype: Flags,
    cluster: int, clusterareanum: int, numreachableareas: int, firstreachablearea: int)

  // A portal keeps one number for its front cluster and one for its back cluster.
  datatype Portal = Portal(
    areanum: int, frontcluster: int, backcluster: int, frontareanum: int, backareanum: int)

  datatype Cluster = Cluster(numareas: int, numreachabilityareas: int, numportals: int, firstportal: int)

  datatype Edge = Edge(v0: int, v1: int)

  datatype Face = Face(
    planenum: int, faceflags: Flags, numedges: int, firstedge: int, frontarea: int, backarea: int)

  datatype Area = Area(areanum: int, numfaces: int, firstface: int, mins: Vec3, maxs: Vec3, center: Vec3)

  predicate HasFlag(word: Flags, flag: Flags) {
    word & flag != 0
  }

  function WithFlag(word: Flags, flag: Flags): Flags {
    word | flag
  }

  function WithoutFlag(word: Flags, flag: Flags): Flags {
    word & !flag
  }

  function Abs(x: int): nat {
    if x < 0 then -x else x
  }

  /** The loaded world. A table's length is its count, except that portals, portalindex
      and clusters are allocated at a fixed size and counted apart. */
  class AasWorld {
    var loaded: bool
    var savefile: bool
    var areas: array<Area>
    var areasettings: array<AreaSettings>
    var reachability: array<Reachability>
    var faces: array<Face>
    var faceindex: array<int>
    var edges: array<Edge>
    var edgeindex: array<int>
    var vertexes: array<Vec3>
    var portals: array<Portal>
    var numportals: int
    var portalindex: array<int>
    var portalindexsize: int
    var clusters: array<Cluster>
    var numclusters: int

    constructor (areas: array<Area>, areasettings: array<AreaSettings>, reachability: array<Reachability>,
                 faces: array<Face>, faceindex: array<int>, edges: array<Edge>, edgeindex: array<int>,
                 vertexes: array<Vec3>)
      ensures loaded && !savefile && numportals == portalindexsize == numclusters == 0
      ensures this.areas == areas && this.areasettings == areasettings && this.reachability == reachability
      ensures this.faces == faces && this.faceindex == faceindex && this.edges == edges
      ensures this.edgeindex == edgeindex && this.vertexes == vertexes
    {
      this.areas, this.areasettings, this.reachability := areas, areasettings, reachability;
      this.faces, this.faceindex, this.edges, this.edgeindex := faces, faceindex, edges, edgeindex;
      this.vertexes := vertexes;
      loaded, savefile := true, false;
      portals, portalindex, clusters := new Portal[0], new int[0], new Cluster[0];
      numportals, portalindexsize, numclusters := 0, 0, 0;
    }
  }
}
