/** The in-memory package record: a package whose attributes are set one by
    one after construction. The resolver reads its name, version and replace
    links; the download manager reads and writes its installation source and
    reads its source and dist types. */
module Packages {
  import opened Common

  /** A link from one package to another (the Link class itself is not part of
      this model): the linking package's name, the target name, and the
      version constraint as text. */
  datatype Link = Link(source: string, target: string, constraint: string)

  /** The type reported for a package whose type is unset or falsy. */
  const DefaultType := "library"

  class MemoryPackage {
    /** Set once by the constructor (the name is stored by the base class,
        which is not part of this model). */
    const name: string
    const version: string
    const prettyVersion: string

    var packageType: Option<string>
    var targetDir: Option<string>
    var installationSource: Option<string>
    var sourceType: Option<string>
    var distType: Option<string>

    var extra: map<string, string>
    var binaries: seq<string>
    var autoload: map<string, string>

    var requireLinks: seq<Link>
    var conflictLinks: seq<Link>
    var provideLinks: seq<Link>
    var replaceLinks: seq<Link>
    var recommendLinks: seq<Link>
    var suggestLinks: seq<Link>

    /** A new package: the given name and versions, no type, no installation
        data, and every link list and map empty. */
    constructor (name: string, version: string, prettyVersion: string)
      ensures this.name == name
      ensures GetVersion() == version && GetPrettyVersion() == prettyVersion
      ensures packageType == None && GetType() == DefaultType
      ensures targetDir == None && installationSource == None
      ensures sourceType == None && distType == None
      ensures extra == map[] && binaries == [] && autoload == map[]
      ensures requireLinks == [] && conflictLinks == [] && provideLinks == []
      ensures replaceLinks == [] && recommendLinks == [] && suggestLinks == []
    {
      this.name := name;
      this.version := version;
      this.prettyVersion := prettyVersion;
      packageType := None;
      targetDir := None;
      installationSource := None;
      sourceType := None;
      distType := None;
      extra := map[];
      binaries := [];
      autoload := map[];
      requireLinks := [];
      conflictLinks := [];
      provideLinks := [];
      replaceLinks := [];
      recommendLinks := [];
      suggestLinks := [];
    }

    /** The normalized version given to the constructor. */
    function GetVersion(): (r: string)
      ensures r == version
    {
      version
    }

    /** The version as the user wrote it, given to the constructor. */
    function GetPrettyVersion(): (r: string)
      ensures r == prettyVersion
    {
      prettyVersion
    }

    method SetType(t: Option<string>)
      modifies this`packageType
      ensures packageType == t
      ensures Truthy(t) ==> GetType() == t.value
      ensures !Truthy(t) ==> GetType() == DefaultType
    {
      packageType := t;
    }

    /** The package type, defaulting to "library" when the stored type is
        null or falsy: the result is never falsy itself. */
    function GetType(): (r: string)
      reads this
      ensures Truthy(Some(r))
      ensures Truthy(packageType) ==> r == packageType.value
      ensures !Truthy(packageType) ==> r == DefaultType
    {
      if Truthy(packageType) then packageType.value else DefaultType
    }

    method SetTargetDir(dir: Option<string>)
      modifies this`targetDir
      ensures GetTargetDir() == dir
    {
      targetDir := dir;
    }

    function GetTargetDir(): Option<string> reads this { targetDir }

    method SetExtra(e: map<string, string>)
      modifies this`extra
      ensures GetExtra() == e
    {
      extra := e;
    }

    function GetExtra(): map<string, string> reads this { extra }

    method SetBinaries(b: seq<string>)
      modifies this`binaries
      ensures GetBinaries() == b
    {
      binaries := b;
    }

    function GetBinaries(): seq<string> reads this { binaries }

    method SetInstallationSource(s: Option<string>)
      modifies this`installationSource
      ensures GetInstallationSource() == s
    {
      installationSource := s;
    }

    function GetInstallationSource(): Option<string> reads this { installationSource }

    method SetSourceType(t: Option<string>)
      modifies this`sourceType
      ensures GetSourceType() == t
    {
      sourceType := t;
    }

    function GetSourceType(): Option<string> reads this { sourceType }

    method SetDistType(t: Option<string>)
      modifies this`distType
      ensures GetDistType() == t
    {
      distType := t;
    }

    function GetDistType(): Option<string> reads this { distType }

    method SetRequires(links: seq<Link>)
      modifies this`requireLinks
      ensures GetRequires() == links
    {
      requireLinks := links;
    }

    function GetRequires(): seq<Link> reads this { requireLinks }

    method SetConflicts(links: seq<Link>)
      modifies this`conflictLinks
      ensures GetConflicts() == links
    {
      conflictLinks := links;
    }

    function GetConflicts(): seq<Link> reads this { conflictLinks }

    method SetProvides(links: seq<Link>)
      modifies this`provideLinks
      ensures GetProvides() == links
    {
      provideLinks := links;
    }

    function GetProvides(): seq<Link> reads this { provideLinks }

    method SetReplaces(links: seq<Link>)
      modifies this`replaceLinks
      ensures GetReplaces() == links
    {
      replaceLinks := links;
    }

    function GetReplaces(): seq<Link> reads this { replaceLinks }

    method SetRecommends(links: seq<Link>)
      modifies this`recommendLinks
      ensures GetRecommends() == links
    {
      recommendLinks := links;
    }

    function GetRecommends(): seq<Link> reads this { recommendLinks }

    method SetSuggests(links: seq<Link>)
      modifies this`suggestLinks
      ensures GetSuggests() == links
    {
      suggestLinks := links;
    }

    function GetSuggests(): seq<Link> reads this { suggestLinks }

    method SetAutoload(a: map<string, string>)
      modifies this`autoload
      ensures GetAutoload() == a
    {
      autoload := a;
    }

    function GetAutoload(): map<string, string> reads this { autoload }
  }
}
