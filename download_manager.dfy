/** The download manager: a table from installation type (such as "git" or
    "zip") to the downloader that handles it, and the choice between a
    package's dist archive and its source checkout. The downloaders' own
    work and the directory creation are recorded as events, in call order. */
module Downloads {
  import opened Common
  import opened Packages

  /** A registered downloader: `name` stands for the instance, and
      `installationSource` is what its own `getInstallationSource()` reports,
      "dist" or "source". */
  datatype Downloader = Downloader(name: string, installationSource: string)

  /** A call the manager makes into code outside this model. */
  datatype Event =
    | EnsureDirectory(dir: string)
    | DownloadCall(downloader: Downloader, package: MemoryPackage, dir: string)
    | UpdateCall(downloader: Downloader, initial: MemoryPackage, target: MemoryPackage, dir: string)
    | RemoveCall(downloader: Downloader, package: MemoryPackage, dir: string)

  const Dist := "dist"
  const Source := "source"

  /** The table key PHP uses for a type: a null type becomes the empty key. */
  function Key(t: Option<string>): string {
    t.GetOr("")
  }

  /** The installation source `download` picks: the dist archive when there is
      a dist type, unless source is preferred and a source type exists; else
      the source when there is a source type; else none (an error). */
  function SelectInstallationSource(preferSource: bool, sourceType: Option<string>, distType: Option<string>)
    : (r: Option<string>)
    ensures r == None <==> !Truthy(sourceType) && !Truthy(distType)
    ensures r == Some(Dist) ==> Truthy(distType)
    ensures r == Some(Source) ==> Truthy(sourceType)
    ensures r.Some? ==> r == Some(Dist) || r == Some(Source)
    ensures preferSource && Truthy(sourceType) ==> r == Some(Source)
    ensures !preferSource && Truthy(distType) ==> r == Some(Dist)
    ensures !Truthy(sourceType) && Truthy(distType) ==> r == Some(Dist)
  {
    if !(preferSource && Truthy(sourceType)) && Truthy(distType) then Some(Dist)
    else if Truthy(sourceType) then Some(Source)
    else None
  }

  /** The types `update` compares: the dist types when the installed package
      came from its dist archive, the source types otherwise. */
  function ComparedTypes(installationSource: Option<string>, initial: MemoryPackage, target: MemoryPackage)
    : (r: (Option<string>, Option<string>))
    reads initial, target
    ensures installationSource == Some(Dist) ==> r == (initial.GetDistType(), target.GetDistType())
    ensures installationSource != Some(Dist) ==> r == (initial.GetSourceType(), target.GetSourceType())
  {
    if installationSource == Some(Dist) then (initial.distType, target.distType)
    else (initial.sourceType, target.sourceType)
  }

  class DownloadManager {
    var preferSource: bool
    var downloaders: map<string, Downloader>
    /** The calls made so far into downloaders and the filesystem. */
    var events: seq<Event>

    /** A manager that by default does not prefer source installs. */
    constructor (preferSource: bool := false)
      ensures this.preferSource == preferSource
      ensures downloaders == map[] && events == []
    {
      this.preferSource := preferSource;
      downloaders := map[];
      events := [];
    }

    method SetPreferSource(preferSource: bool)
      modifies this`preferSource
      ensures this.preferSource == preferSource
    {
      this.preferSource := preferSource;
    }

    /** Registers `downloader` for type `t`, replacing any earlier one; the
        other types keep their downloaders. */
    method SetDownloader(t: Option<string>, downloader: Downloader)
      modifies this`downloaders
      ensures GetDownloader(t) == Ok(downloader)
      ensures forall u :: Key(u) != Key(t) ==> GetDownloader(u) == old(GetDownloader(u))
      ensures downloaders.Keys == old(downloaders.Keys) + {Key(t)}
    {
      downloaders := downloaders[Key(t) := downloader];
    }

    /** The downloader registered for type `t`, or an invalid-argument error
        when there is none. */
    function GetDownloader(t: Option<string>): (r: Result<Downloader>)
      reads this
      ensures r.Ok? <==> Key(t) in downloaders
      ensures r.Ok? ==> r.value == downloaders[Key(t)]
      ensures r.Err? ==> r.error == InvalidArgument
    {
      if Key(t) in downloaders then Ok(downloaders[Key(t)]) else Err(InvalidArgument)
    }

    /** The downloader for a package that is already installed: the one for
        its dist type when it was installed from dist, the one for its source
        type when installed from source. It fails with an invalid-argument
        error when the package has no such installation source or no
        downloader is registered for the type, and with a logic error when
        the downloader serves the other kind of installation. */
    function GetDownloaderForInstalledPackage(p: MemoryPackage): (r: Result<Downloader>)
      reads this, p
      ensures p.installationSource != Some(Dist) && p.installationSource != Some(Source) ==>
        r == Err(InvalidArgument)
      ensures p.installationSource == Some(Dist) ==>
        (r.Ok? <==> Key(p.distType) in downloaders && downloaders[Key(p.distType)].installationSource == Dist)
      ensures p.installationSource == Some(Source) ==>
        (r.Ok? <==> Key(p.sourceType) in downloaders && downloaders[Key(p.sourceType)].installationSource == Source)
      ensures r.Ok? ==> p.installationSource == Some(r.value.installationSource)
      ensures r.Ok? ==> r.value in downloaders.Values
      ensures r.Ok? ==>
        r.value == downloaders[Key(if p.installationSource == Some(Dist) then p.distType else p.sourceType)]
      ensures r.Err? && (p.installationSource == Some(Dist) || p.installationSource == Some(Source)) ==>
        (r.error == Logic <==> GetDownloader(if p.installationSource == Some(Dist) then p.distType else p.sourceType).Ok?)
    {
      var source := p.GetInstallationSource();
      if source == Some(Dist) || source == Some(Source) then
        var found := GetDownloader(if source == Some(Dist) then p.GetDistType() else p.GetSourceType());
        if found.Err? then Err(found.error)
        else if source != Some(found.value.installationSource) then Err(Logic)
        else found
      else
        Err(InvalidArgument)
    }

    /** Downloads `p` into `targetDir`. `preferSource` overrides the manager's
        own preference when it is not null. The chosen installation source is
        stored on the package before the directory is created and the
        downloader is looked up; with neither a dist nor a source type the
        call fails and nothing changes. */
    method Download(p: MemoryPackage, targetDir: string, preferSource: Option<bool> := None) returns (o: Outcome)
      modifies this`events, p`installationSource
      ensures var chosen := SelectInstallationSource(
          preferSource.GetOr(this.preferSource), p.sourceType, p.distType);
        && (chosen == None ==>
              o == Fail(InvalidArgument) && p.installationSource == old(p.installationSource)
              && events == old(events))
        && (chosen != None ==>
              p.installationSource == chosen
              && var found := GetDownloaderForInstalledPackage(p);
              && (found.Err? ==> o == Fail(found.error) && events == old(events) + [EnsureDirectory(targetDir)])
              && (found.Ok? ==>
                    o == Done
                    && events == old(events) + [EnsureDirectory(targetDir), DownloadCall(found.value, p, targetDir)]))
    {
      var prefer := if preferSource.Some? then preferSource.value else this.preferSource;
      var sourceType := p.GetSourceType();
      var distType := p.GetDistType();
      if !(prefer && Truthy(sourceType)) && Truthy(distType) {
        p.SetInstallationSource(Some(Dist));
      } else if Truthy(sourceType) {
        p.SetInstallationSource(Some(Source));
      } else {
        return Fail(InvalidArgument);
      }
      events := events + [EnsureDirectory(targetDir)];
      var found := GetDownloaderForInstalledPackage(p);
      if found.Err? {
        return Fail(found.error);
      }
      events := events + [DownloadCall(found.value, p, targetDir)];
      return Done;
    }

    /** Updates the installed `initial` to `target`. When the two packages
        have the same type for the way `initial` was installed, `target`
        takes over that installation source and the downloader updates in
        place; otherwise `initial` is removed and `target` downloaded,
        preferring source exactly when `initial` came from source. */
    method Update(initial: MemoryPackage, target: MemoryPackage, targetDir: string) returns (o: Outcome)
      modifies this`events, target`installationSource
      ensures var found := old(GetDownloaderForInstalledPackage(initial));
        && (found.Err? ==>
              o == Fail(found.error) && events == old(events)
              && target.installationSource == old(target.installationSource))
        && (found.Ok? && old(ComparedTypes(initial.installationSource, initial, target)).0
                         == old(ComparedTypes(initial.installationSource, initial, target)).1 ==>
              o == Done && target.installationSource == old(initial.installationSource)
              && events == old(events) + [UpdateCall(found.value, initial, target, targetDir)])
        && (found.Ok? && old(ComparedTypes(initial.installationSource, initial, target)).0
                         != old(ComparedTypes(initial.installationSource, initial, target)).1 ==>
              var removed := old(events) + [RemoveCall(found.value, initial, targetDir)];
              var chosen := SelectInstallationSource(
                old(initial.installationSource) == Some(Source), target.sourceType, target.distType);
              && (chosen == None ==>
                    o == Fail(InvalidArgument) && events == removed
                    && target.installationSource == old(target.installationSource))
              && (chosen != None ==>
                    target.installationSource == chosen
                    && var downloaded := GetDownloaderForInstalledPackage(target);
                    && (downloaded.Err? ==>
                          o == Fail(downloaded.error) && events == removed + [EnsureDirectory(targetDir)])
                    && (downloaded.Ok? ==>
                          o == Done
                          && events == removed + [EnsureDirectory(targetDir), DownloadCall(downloaded.value, target, targetDir)])))
    {
      var found := GetDownloaderForInstalledPackage(initial);
      if found.Err? {
        return Fail(found.error);
      }
      var downloader := found.value;
      var installationSource := initial.GetInstallationSource();
      var initialType, targetType;
      if installationSource == Some(Dist) {
        initialType, targetType := initial.GetDistType(), target.GetDistType();
      } else {
        initialType, targetType := initial.GetSourceType(), target.GetSourceType();
      }
      if initialType == targetType {
        target.SetInstallationSource(installationSource);
        events := events + [UpdateCall(downloader, initial, target, targetDir)];
        o := Done;
      } else {
        events := events + [RemoveCall(downloader, initial, targetDir)];
        o := Download(target, targetDir, Some(installationSource == Some(Source)));
      }
    }

    /** Removes the installed `p` through the downloader it was installed
        with. */
    method Remove(p: MemoryPackage, targetDir: string) returns (o: Outcome)
      modifies this`events
      ensures var found := GetDownloaderForInstalledPackage(p);
        && (found.Err? ==> o == Fail(found.error) && events == old(events))
        && (found.Ok? ==> o == Done && events == old(events) + [RemoveCall(found.value, p, targetDir)])
    {
      var found := GetDownloaderForInstalledPackage(p);
      if found.Err? {
        return Fail(found.error);
      }
      events := events + [RemoveCall(found.value, p, targetDir)];
      return Done;
    }
  }
}
