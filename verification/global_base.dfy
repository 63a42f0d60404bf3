/**
 * The base of configuration entries that name a zone of the level
 * (AmorLib/Utils/GlobalBase.cs). The three indices are settable; the zone
 * index struct and the integer tuple built from them are caches, rebuilt
 * lazily when a setter has raised the update flag. After each geomorph build
 * batch the entry resolves its dimension and zone; level cleanup forgets them.
 *
 * The game's enumerations are `newtype`s over their integer values, so that
 * the source's `(int)` casts are `as int`. The lookups of a dimension by index
 * and of a zone by integer tuple belong to the game and are parameters.
 */
module GlobalIndexes {
  import opened Wrappers

  newtype DimensionIndex = int
  newtype LayerType = int
  newtype LocalZoneIndex = int

  /** The game's `Reality`, `MainLayer` and `Zone_0`, the defaults of a new entry. */
  const Reality: DimensionIndex := 0
  const MainLayer: LayerType := 0
  const Zone0: LocalZoneIndex := 0

  /** The game's zone index struct. */
  datatype GlobalZoneIndex = GlobalZoneIndex(dimension: DimensionIndex, layer: LayerType, zone: LocalZoneIndex)

  /** A dimension and a zone of the built level, as the game resolves them. */
  type DimensionRef(==)
  type ZoneRef(==)

  /** The build batch that has just finished; only the geomorph batch matters here. */
  datatype BatchName = Geomorphs | OtherBatch

  /** The three indices cast to integers. */
  function ToIntTuple(dimension: DimensionIndex, layer: LayerType, zone: LocalZoneIndex): (int, int, int) {
    (dimension as int, layer as int, zone as int)
  }

  class GlobalBase {
    var dimIndex: DimensionIndex
    var layerType: LayerType
    var localIndex: LocalZoneIndex
    var structCache: GlobalZoneIndex
    var tupleCache: (int, int, int)
    var dimension: Option<DimensionRef>
    var zone: Option<ZoneRef>
    var updateFlag: bool

    /** With the flag clear, both caches agree with the current indices. */
    predicate Valid()
      reads this
    {
      !updateFlag ==>
        structCache == GlobalZoneIndex(dimIndex, layerType, localIndex) &&
        tupleCache == ToIntTuple(dimIndex, layerType, localIndex)
    }

    /** A new entry names the main layer's first zone in reality, with its caches already built. */
    constructor ()
      ensures Valid() && !updateFlag
      ensures dimIndex == Reality && layerType == MainLayer && localIndex == Zone0
      ensures structCache == GlobalZoneIndex(Reality, MainLayer, Zone0) && tupleCache == (0, 0, 0)
      ensures dimension == None && zone == None
    {
      dimIndex, layerType, localIndex := Reality, MainLayer, Zone0;
      structCache := GlobalZoneIndex(0, 0, 0);
      tupleCache := (0, 0, 0);
      dimension, zone := None, None;
      updateFlag := true;
      new;
      Refresh();
    }

    method SetDimensionIndex(value: DimensionIndex)
      modifies this
      requires Valid()
      ensures Valid() && updateFlag
      ensures dimIndex == value
      ensures layerType == old(layerType) && localIndex == old(localIndex)
      ensures structCache == old(structCache) && tupleCache == old(tupleCache)
      ensures dimension == old(dimension) && zone == old(zone)
    {
      dimIndex := value;
      RaiseFlag();
    }

    method SetLayer(value: LayerType)
      modifies this
      requires Valid()
      ensures Valid() && updateFlag
      ensures layerType == value
      ensures dimIndex == old(dimIndex) && localIndex == old(localIndex)
      ensures structCache == old(structCache) && tupleCache == old(tupleCache)
      ensures dimension == old(dimension) && zone == old(zone)
    {
      layerType := value;
      RaiseFlag();
    }

    method SetLocalIndex(value: LocalZoneIndex)
      modifies this
      requires Valid()
      ensures Valid() && updateFlag
      ensures localIndex == value
      ensures dimIndex == old(dimIndex) && layerType == old(layerType)
      ensures structCache == old(structCache) && tupleCache == old(tupleCache)
      ensures dimension == old(dimension) && zone == old(zone)
    {
      localIndex := value;
      RaiseFlag();
    }

    method RaiseFlag()
      modifies this
      ensures updateFlag
      ensures dimIndex == old(dimIndex) && layerType == old(layerType) && localIndex == old(localIndex)
      ensures structCache == old(structCache) && tupleCache == old(tupleCache)
      ensures dimension == old(dimension) && zone == old(zone)
    {
      updateFlag := true;
    }

    /** Rebuilds both caches from the indices when the flag is raised, and clears it; nothing otherwise. */
    method Refresh()
      modifies this
      requires Valid()
      ensures Valid() && !updateFlag
      ensures !old(updateFlag) ==> unchanged(this)
      ensures dimIndex == old(dimIndex) && layerType == old(layerType) && localIndex == old(localIndex)
      ensures dimension == old(dimension) && zone == old(zone)
    {
      if !updateFlag {
        return;
      }
      structCache := GlobalZoneIndex(dimIndex, layerType, localIndex);
      tupleCache := ToIntTuple(dimIndex, layerType, localIndex);
      updateFlag := false;
    }

    /** The zone index struct, refreshed first: always that of the current indices. */
    method GetGlobalZoneIndex() returns (r: GlobalZoneIndex)
      modifies this
      requires Valid()
      ensures Valid() && !updateFlag
      ensures r == GlobalZoneIndex(dimIndex, layerType, localIndex)
      ensures dimIndex == old(dimIndex) && layerType == old(layerType) && localIndex == old(localIndex)
      ensures dimension == old(dimension) && zone == old(zone)
    {
      Refresh();
      r := structCache;
    }

    /** The integer tuple, refreshed first: always the casts of the current indices. */
    method GetIntTuple() returns (r: (int, int, int))
      modifies this
      requires Valid()
      ensures Valid() && !updateFlag
      ensures r == ToIntTuple(dimIndex, layerType, localIndex)
      ensures dimIndex == old(dimIndex) && layerType == old(layerType) && localIndex == old(localIndex)
      ensures dimension == old(dimension) && zone == old(zone)
    {
      Refresh();
      r := tupleCache;
    }

    /**
     * After the geomorph batch, resolves the dimension from the current index
     * and the zone from the cached tuple, which is not refreshed first.
     */
    method OnAfterBuildBatch(batch: BatchName, findDimension: DimensionIndex -> Option<DimensionRef>,
                             findZone: ((int, int, int)) -> Option<ZoneRef>)
      modifies this
      ensures batch == Geomorphs ==> dimension == findDimension(dimIndex) && zone == findZone(tupleCache)
      ensures batch != Geomorphs ==> dimension == old(dimension) && zone == old(zone)
      ensures dimIndex == old(dimIndex) && layerType == old(layerType) && localIndex == old(localIndex)
      ensures structCache == old(structCache) && tupleCache == old(tupleCache) && updateFlag == old(updateFlag)
    {
      if batch == Geomorphs {
        dimension := findDimension(dimIndex);
        zone := findZone(tupleCache);
      }
    }

    /** OnAfterBuildBatch with the caches refreshed first, so that the zone is that of the current indices. */
    method OnAfterBuildBatchRefreshed(batch: BatchName, findDimension: DimensionIndex -> Option<DimensionRef>,
                                      findZone: ((int, int, int)) -> Option<ZoneRef>)
      modifies this
      requires Valid()
      ensures Valid() && !updateFlag
      ensures batch == Geomorphs ==>
                dimension == findDimension(dimIndex) && zone == findZone(ToIntTuple(dimIndex, layerType, localIndex))
      ensures batch != Geomorphs ==> dimension == old(dimension) && zone == old(zone)
      ensures dimIndex == old(dimIndex) && layerType == old(layerType) && localIndex == old(localIndex)
    {
      Refresh();
      OnAfterBuildBatch(batch, findDimension, findZone);
    }

    /** Level cleanup forgets the resolved dimension and zone. */
    method OnLevelCleanup()
      modifies this
      ensures dimension == None && zone == None
      ensures dimIndex == old(dimIndex) && layerType == old(layerType) && localIndex == old(localIndex)
      ensures structCache == old(structCache) && tupleCache == old(tupleCache) && updateFlag == old(updateFlag)
    {
      dimension, zone := None, None;
    }
  }

  /**
   * An entry whose zone is set after construction and never read through
   * GetGlobalZoneIndex or GetIntTuple: the geomorph batch resolves the zone of
   * the old tuple (none here), while the refreshed version finds the zone the
   * entry names.
   */
  method StaleZoneExample(z: ZoneRef, d: DimensionRef) returns (asWritten: Option<ZoneRef>, refreshed: Option<ZoneRef>)
    ensures asWritten == None && refreshed == Some(z)
  {
    var findDimension := (i: DimensionIndex) => Some(d);
    var findZone := (t: (int, int, int)) => if t == (0, 0, 1) then Some(z) else None;
    var e := new GlobalBase();
    e.SetLocalIndex(1);
    e.OnAfterBuildBatch(Geomorphs, findDimension, findZone);
    asWritten := e.zone;
    var f := new GlobalBase();
    f.SetLocalIndex(1);
    f.OnAfterBuildBatchRefreshed(Geomorphs, findDimension, findZone);
    refreshed := f.zone;
  }
}
