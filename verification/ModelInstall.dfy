/**
 * Installing a model: resumable download, hash verification and staged activation over a file system on which
 * every operation may fail, be the last one before a crash, or be preceded by another process's installation.
 */
module ModelInstall {
  import opened Results

  /** What a manifest entry and the resume metadata identify a download by. */
  datatype Identity = Identity(downloadUrl: string, sizeBytes: nat, sha256: nat)

  /** A manifest entry: the file it puts into the model's directory, and what identifies its download. */
  datatype Entry = Entry(fileName: string, identity: Identity)

  /** What is at the model's directory; the directory may be there without the model's file. */
  datatype Destination = Absent | Directory(files: map<string, Bytes>)

  const BARE: Destination := Directory(map[])

  /** What is left of earlier downloads: the partial, its metadata, and the directories of the old layout. */
  datatype Leftovers = Leftovers(partial: Option<Bytes>, resume: Option<ResumeFile>,
                                 legacy: map<string, Option<Bytes>>)

  datatype ResumeFile = Torn | Recorded(identity: Identity, etag: Option<string>)

  datatype InstallError =
    | Crashed | Io | Cancelled | Download | DownloadStatus
    | SizeMismatch | HashMismatch | InvalidResume | DestinationExists | AmbiguousLegacyStaging

  datatype Outcome = Done | Failed(error: InstallError) {
    predicate IsFailure() { Failed? }
    function PropagateFailure(): Outcome
      requires Failed?
    {
      this
    }
  }

  /** RFC 9110, sections 14.2 and 15.3.7: a range request is answered by the rest (206) or by everything (200). */
  datatype Reply = NoReply | OtherStatus | Full(fullEtag: Option<string>) | Partial(partialEtag: Option<string>)

  /** Who answers the requests of one run: a server with the published content, which may or may not answer range
      requests with ranges; any server; or one that always replies with all of one body. */
  datatype Server = Honest(ranges: bool) | Unknown | Sends(body: Bytes)

  /** What may still go wrong during a run: nothing, anything, or a crash or one failure once so many file operations
      are done. */
  datatype Mode = Calm | Wild | CrashAfter(operations: nat) | FailAfter(operations: nat)

  /** At least `n` more operations are planned to succeed. */
  predicate Lasts(m: Mode, n: nat) {
    (m.CrashAfter? || m.FailAfter?) && m.operations >= n
  }

  function Later(m: Mode, n: nat): Mode
    requires Lasts(m, n)
  {
    m.(operations := m.operations - n)
  }

  /** How the mode of a run develops: only a planned failure that has happened makes it calm. */
  predicate Follows(before: Mode, after: Mode) {
    match before
    case Calm => after.Calm?
    case Wild => after.Wild?
    case CrashAfter(_) => after.CrashAfter?
    case FailAfter(_) => after.FailAfter? || after.Calm?
  }

  /** At most one operation fails, and there is no crash. */
  predicate Mild(m: Mode) {
    m.Calm? || m.FailAfter?
  }

  predicate EndsWith(name: string, suffix: string) {
    |suffix| <= |name| && name[|name| - |suffix|..] == suffix
  }

  class ModelStore {
    const hash: Bytes -> nat
    /** The content the server holds for an identity; it never changes. */
    const catalog: Identity -> Bytes
    /** How the affected alpha build named the staging directories of this model. */
    const legacyPrefix: string
    /** The model's directory is the one in which downloads are kept, so that an install creates it itself. */
    const inDownloads: bool

    var destination: Destination                // the model's directory
    var partial: Option<Bytes>
    var resume: Option<ResumeFile>
    var stagings: map<nat, Option<Bytes>>       // staging directories, each with the model file or still empty
    // directories where the alpha build staged, by name, with the model file
    var legacy: map<string, Option<Bytes>>
    ghost var trusted: bool                     // every server so far sent the published content
    var mode: Mode                              // what may still go wrong during the current run

    constructor (hash: Bytes -> nat, catalog: Identity -> Bytes, legacyPrefix: string, inDownloads: bool)
      ensures this.hash == hash && this.catalog == catalog && this.legacyPrefix == legacyPrefix
      ensures this.inDownloads == inDownloads
      ensures Sound() && trusted && destination == Absent && partial == None && resume == None && stagings == map[]
    {
      this.hash, this.catalog, this.legacyPrefix, this.inDownloads := hash, catalog, legacyPrefix, inDownloads;
      destination, partial, resume, stagings, legacy := Absent, None, None, map[], map[];
      trusted, mode := true, Wild;
    }

    /** A directory of the old layout that holds a staged file of this model. */
    predicate IsLegacyStaging(legacy: map<string, Option<Bytes>>, name: string) {
      name in legacy && legacyPrefix <= name && EndsWith(name, ".staging") && legacy[name].Some?
    }

    function Stagings(legacy: map<string, Option<Bytes>>): set<string> {
      set name | name in legacy && IsLegacyStaging(legacy, name)
    }

    function Recoverable(): set<string>
      reads this`legacy
    {
      Stagings(legacy)
    }

    function OnDisk(): Leftovers
      reads this`partial, this`resume, this`legacy
    {
      Leftovers(partial, resume, legacy)
    }

    predicate Verified(identity: Identity, content: Bytes) {
      |content| == identity.sizeBytes && hash(content) == identity.sha256
    }

    /** The server's content has the size and the hash the manifest promises. */
    predicate Published(entry: Entry) {
      Verified(entry.identity, catalog(entry.identity))
    }

    /** The model's directory holds the file of this entry, with the promised content. */
    predicate Installed(entry: Entry, d: Destination) {
      d.Directory? && entry.fileName in d.files && Verified(entry.identity, d.files[entry.fileName])
    }

    function Placed(entry: Entry, content: Bytes): Destination {
      Directory(map[entry.fileName := content])
    }

    /** Holds at every file-operation boundary of every run: against servers that send the published content a partial
        with metadata is a prefix of what the metadata names. */
    ghost predicate Sound()
      reads this`trusted, this`partial, this`resume, this`legacy
    {
      trusted ==> Recoverable() == {} && (partial.Some? ==> resume.Some?) && Prefixed()
    }

    ghost predicate Prefixed()
      reads this`partial, this`resume
    {
      partial.Some? && resume.Some? && resume.value.Recorded? ==> partial.value <= catalog(resume.value.identity)
    }

    /** Another process may have installed the same verified model meanwhile, or created the directory for a model
        below this one; a directory that exists is left alone. */
    predicate MaybeRival(entry: Entry, before: Destination, after: Destination) {
      after == before
      || (before.Absent? && (after == BARE || (!inDownloads && after == Placed(entry, catalog(entry.identity)))))
    }

    /** What the creation of the download directory makes of the destination. */
    function WithDownloads(d: Destination): Destination {
      if inDownloads && d.Absent? then BARE else d
    }

    // ----- file operations -----

    /** Runs before every file operation: decides whether it happens, fails, or is never reached. */
    method Attempt(entry: Entry) returns (o: Outcome)
      modifies this`destination, this`mode
      ensures MaybeRival(entry, old(destination), destination)
      ensures o == Done || o == Failed(Io) || o == Failed(Crashed)
      ensures old(mode).Calm? ==> o == Done && destination == old(destination)
      ensures Follows(old(mode), mode) && (!mode.Wild? ==> destination == old(destination))
      ensures old(mode) == CrashAfter(0) ==> o == Failed(Crashed)
      ensures old(mode) == FailAfter(0) ==> o == Failed(Io) && mode == Calm
      ensures Lasts(old(mode), 1) ==> o == Done && mode == Later(old(mode), 1)
    {
      match mode {
        case Calm => return Done;
        case CrashAfter(operations) =>
          if operations == 0 {
            return Failed(Crashed);
          }
          mode := CrashAfter(operations - 1);
          return Done;
        case FailAfter(operations) =>
          if operations == 0 {
            mode := Calm;
            return Failed(Io);
          }
          mode := FailAfter(operations - 1);
          return Done;
        case Wild =>
      }
      var rival: bool, fate: nat := *, *;
      if rival && destination.Absent? {
        var below: bool := *;
        destination := if below || inDownloads then BARE else Placed(entry, catalog(entry.identity));
      }
      o := if fate == 0 then Failed(Crashed) else if fate == 1 then Failed(Io) else Done;
    }

    method RemovePartial(entry: Entry) returns (o: Outcome)
      requires partial.Some?
      modifies this`destination, this`mode, this`partial
      ensures MaybeRival(entry, old(destination), destination) && Follows(old(mode), mode)
      ensures o == Done || o == Failed(Io) || o == Failed(Crashed)
      ensures partial == if o.Done? then None else old(partial)
      ensures old(mode).Calm? ==> o == Done && destination == old(destination)
    {
      o := Done;
      :- Attempt(entry);
      partial := None;
    }

    /** A failure to remove the metadata is ignored, a crash is not. */
    method RemoveResumeQuietly(entry: Entry) returns (o: Outcome)
      modifies this`destination, this`mode, this`resume
      ensures MaybeRival(entry, old(destination), destination) && Follows(old(mode), mode)
      ensures o == Done || o == Failed(Crashed)
      ensures resume == old(resume) || (o.Done? && resume == None)
      ensures old(mode).Calm? ==> o == Done && resume == None && destination == old(destination)
    {
      var attempt := Attempt(entry);
      if attempt == Failed(Crashed) {
        return attempt;
      }
      if attempt.Done? {
        resume := None;
      }
      o := Done;
    }

    /** Truncates the metadata file, then writes it. */
    method WriteResumeState(entry: Entry, etag: Option<string>) returns (o: Outcome)
      modifies this`destination, this`mode, this`resume
      ensures MaybeRival(entry, old(destination), destination) && Follows(old(mode), mode)
      ensures o == Done || o == Failed(Io) || o == Failed(Crashed)
      ensures o.Done? ==> resume == Some(Recorded(entry.identity, etag))
      ensures o.Failed? ==> resume == old(resume) || resume == Some(Torn)
      ensures old(mode).Calm? ==> o == Done && destination == old(destination)
      ensures !mode.Wild? ==> destination == old(destination)
      ensures old(mode) == CrashAfter(1) ==> o == Failed(Crashed) && resume == Some(Torn)
      ensures Lasts(old(mode), 2) ==> o == Done && mode == Later(old(mode), 2)
    {
      o := Done;
      :- Attempt(entry);
      resume := Some(Torn);
      :- Attempt(entry);
      resume := Some(Recorded(entry.identity, etag));
    }

    method CreateDownloadDirectory(entry: Entry) returns (o: Outcome)
      modifies this`destination, this`mode
      ensures MaybeRival(entry, old(destination), destination) && Follows(old(mode), mode)
      ensures o == Done || o == Failed(Io) || o == Failed(Crashed)
      ensures o.Done? && inDownloads ==> destination.Directory?
      ensures old(mode).Calm? ==> o == Done && destination == WithDownloads(old(destination))
      ensures old(mode) == FailAfter(0) ==> o == Failed(Io) && destination == old(destination)
      ensures Lasts(old(mode), 1) ==>
        o == Done && destination == WithDownloads(old(destination)) && mode == Later(old(mode), 1)
    {
      o := Done;
      :- Attempt(entry);
      destination := WithDownloads(destination);
    }

    // ----- resuming -----

    /** The metadata is not that of another entry, so that nothing has to be discarded. */
    predicate Unforeign(entry: Entry)
      reads this`resume
    {
      resume.Some? && resume.value.Recorded? ==> resume.value.identity == entry.identity
    }

    predicate NamesEntry(entry: Entry, r: Option<ResumeFile>) {
      r.Some? && r.value.Recorded? && r.value.identity == entry.identity
    }

    predicate RecordedFor(entry: Entry)
      reads this`resume
    {
      NamesEntry(entry, resume)
    }

    predicate TornBesidePartial()
      reads this`partial, this`resume
    {
      partial.Some? && resume == Some(Torn)
    }

    /** The bytes of the entry in a partial, which counts only beside metadata of the same entry. */
    function Have(entry: Entry, p: Option<Bytes>, r: Option<ResumeFile>): Bytes {
      if p.Some? && NamesEntry(entry, r) then p.value else []
    }

    predicate Resumable(entry: Entry, p: Option<Bytes>, r: Option<ResumeFile>) {
      !(p.Some? && r == Some(Torn)) && |Have(entry, p, r)| <= entry.identity.sizeBytes
    }

    /** How much of the entry is already there; metadata of another entry discards the partial. */
    method ResumeOffset(entry: Entry) returns (o: Outcome, downloaded: nat, etag: Option<string>)
      requires Sound() && Published(entry)
      modifies this`destination, this`mode, this`partial, this`resume
      ensures MaybeRival(entry, old(destination), destination) && Follows(old(mode), mode)
      ensures partial.Some? ==> partial == old(partial) && resume == old(resume)
      ensures resume == old(resume) || resume == None
      ensures o.Done? && partial.None? ==> downloaded == 0
      ensures o.Done? && partial.Some? && resume.None? ==> downloaded == 0
      ensures o.Done? && partial.Some? && resume.Some? ==>
        resume.value.Recorded? && resume.value.identity == entry.identity
        && (trusted ==> partial.value <= catalog(entry.identity))
        && downloaded == |partial.value| <= entry.identity.sizeBytes
      ensures Sound()
      ensures old(mode).Calm? ==> destination == old(destination)
      ensures old(mode).Calm? ==> (o.Done? <==> Resumable(entry, old(partial), old(resume)))
      ensures o.Done? ==>
        downloaded == |Have(entry, old(partial), old(resume))| && (downloaded > 0 ==> partial == old(partial))
      ensures old(partial).Some? && old(resume) == Some(Torn) ==>
        o.Failed? && partial == old(partial) && resume == old(resume)
      ensures old(mode).Calm? && old(partial).Some? && !old(Unforeign(entry)) ==> partial.None? && resume.None?
      ensures old(Unforeign(entry)) ==>
        destination == old(destination) && partial == old(partial) && resume == old(resume)
        && mode == old(mode) && (o.Done? <==> Resumable(entry, partial, resume))
    {
      downloaded, etag := 0, None;
      if partial.None? || resume.None? {
        return Done, 0, None;
      }
      if resume.value.Torn? {
        return Failed(InvalidResume), 0, None;
      }
      if resume.value.identity != entry.identity {
        o := RemovePartial(entry);
        if o.Failed? {
          return;
        }
        :- RemoveResumeQuietly(entry);
        return Done, 0, None;
      }
      if |partial.value| > entry.identity.sizeBytes {
        return Failed(SizeMismatch), 0, None;
      }
      return Done, |partial.value|, resume.value.etag;
    }

    /** Looks through the directories of the old layout for one that holds a staged file; a second one is an error. */
    method FindLegacyStaging() returns (o: Outcome, found: Option<string>)
      ensures o == Failed(AmbiguousLegacyStaging) <==> |Recoverable()| > 1
      ensures o.Failed? ==> o == Failed(AmbiguousLegacyStaging)
      ensures o.Done? ==> Recoverable() == if found.Some? then {found.value} else {}
    {
      found := None;
      var names := legacy.Keys;
      while names != {}
        invariant names <= legacy.Keys
        invariant forall name :: name in legacy && name !in names ==>
          (IsLegacyStaging(legacy, name) <==> found == Some(name))
        invariant found.Some? ==> found.value in legacy && found.value !in names
      {
        var name :| name in names;
        if IsLegacyStaging(legacy, name) {
          if found.Some? {
            TwoElements(found.value, name, Recoverable());
            return Failed(AmbiguousLegacyStaging), None;
          }
          found := Some(name);
        }
        names := names - {name};
      }
      assert Recoverable() == if found.Some? then {found.value} else {};
      o := Done;
    }

    /** Several directories of the old layout hold a staged file, and it matters which one to take. */
    predicate Ambiguous(d: Leftovers) {
      d.partial.None? && d.resume.Some? && |Stagings(d.legacy)| > 1
    }

    /** The partial after the one staged file of the old layout, if it is wanted, has been moved back. */
    ghost function Recovered(d: Leftovers): Option<Bytes> {
      if d.partial.None? && d.resume.Some? && |Stagings(d.legacy)| == 1 then
        var name :| name in Stagings(d.legacy);
        d.legacy[name]
      else
        d.partial
    }

    ghost function Found(entry: Entry, d: Leftovers): Bytes {
      Have(entry, Recovered(d), d.resume)
    }

    /** Moves the one staged file of the old layout back, but only when metadata is there and the partial is not. */
    method RecoverLegacyStagingPartial(entry: Entry) returns (o: Outcome)
      modifies this`destination, this`mode, this`partial, this`legacy
      ensures MaybeRival(entry, old(destination), destination) && Follows(old(mode), mode)
      ensures old(partial).Some? || resume.None? ==>
        o.Done? && mode == old(mode) && destination == old(destination)
      ensures old(partial).Some? || resume.None? || |old(Recoverable())| != 1 ==>
        partial == old(partial) && legacy == old(legacy)
      ensures old(Recoverable()) == {} ==> partial == old(partial) && legacy == old(legacy)
      ensures o == Failed(AmbiguousLegacyStaging) <==> old(partial).None? && resume.Some? && |old(Recoverable())| > 1
      ensures partial != old(partial) ==> exists name :: name in old(Recoverable()) && partial == old(legacy[name])
      ensures o.Done? && old(partial).None? && resume.Some? && |old(Recoverable())| == 1 ==>
        partial.Some? && Recoverable() == {}
      ensures old(mode).Calm? ==> destination == old(destination) && (o.Done? <==> !Ambiguous(old(OnDisk())))
      ensures o.Done? ==> partial == Recovered(old(OnDisk()))
    {
      if partial.Some? || resume.None? {
        return Done;
      }
      var found;
      o, found := FindLegacyStaging();
      if o.Failed? || found.None? {
        return;
      }
      var name := found.value;
      assert name in Recoverable();
      assert |Recoverable()| == 1 && partial.None? && resume.Some?;
      forall n | IsLegacyStaging(legacy, n) ensures n == name {
        assert n in Recoverable();
      }
      :- Attempt(entry);
      label Found:
      partial, legacy := legacy[name], legacy[name := None];
      assert forall n :: n != name ==> (IsLegacyStaging(legacy, n) <==> IsLegacyStaging(old@Found(legacy), n));
      :- Attempt(entry);
      legacy := legacy - {name};
      o := Done;
    }

    // ----- activation -----

    method RemoveStaging(entry: Entry, staging: nat) returns (o: Outcome)
      modifies this`destination, this`mode, this`stagings
      ensures MaybeRival(entry, old(destination), destination) && Follows(old(mode), mode)
      ensures o == Done || o == Failed(Io) || o == Failed(Crashed)
      ensures stagings == if o.Done? then old(stagings) - {staging} else old(stagings)
      ensures old(mode).Calm? ==> o == Done && destination == old(destination)
    {
      o := Done;
      :- Attempt(entry);
      stagings := stagings - {staging};
    }

    method RestorePartial(entry: Entry, staging: nat) returns (o: Outcome)
      requires staging in stagings && stagings[staging].Some? && partial.None?
      modifies this`destination, this`mode, this`partial, this`stagings
      ensures MaybeRival(entry, old(destination), destination) && Follows(old(mode), mode)
      ensures o == Done || o == Failed(Io) || o == Failed(Crashed)
      ensures o.Done? ==> partial == old(stagings[staging]) && stagings == old(stagings) - {staging}
      ensures partial == old(stagings[staging]) || (partial.None? && stagings == old(stagings))
      ensures forall s :: s in old(stagings) && s != staging ==> s in stagings && stagings[s] == old(stagings[s])
      ensures forall s :: s in stagings ==> s in old(stagings)
      ensures old(mode).Calm? ==> o == Done && destination == old(destination)
    {
      o := Done;
      :- Attempt(entry);
      partial := stagings[staging];
      stagings := stagings[staging := None];
      :- RemoveStaging(entry, staging);
    }

    /** The bytes are in exactly the places an interrupted activation may leave them. */
    predicate Kept(entry: Entry, staging: nat, content: Bytes)
      reads this`partial, this`destination, this`stagings
    {
      partial == Some(content) || destination == Placed(entry, content)
      || (staging in stagings && stagings[staging] == Some(content))
    }

    /** The last half of an activation: the staged directory becomes the destination, or the file goes back. */
    method PlaceStaged(entry: Entry, staging: nat) returns (o: Outcome)
      requires staging in stagings && stagings[staging].Some? && partial.None?
      modifies this`destination, this`mode, this`partial, this`resume, this`stagings
      ensures destination == Placed(entry, old(stagings[staging].value))
        || MaybeRival(entry, old(destination), destination)
      ensures old(destination).Directory? ==> destination == old(destination) && o.Failed?
      ensures Kept(entry, staging, old(stagings[staging].value))
      ensures o == Failed(DestinationExists) ==>
        destination.Directory? && partial == old(stagings[staging]) && stagings == old(stagings) - {staging}
        && resume == old(resume)
      ensures o.Done? ==>
        destination == Placed(entry, old(stagings[staging].value)) && partial == None && resume == None
        && stagings == old(stagings) - {staging}
      ensures (partial == old(stagings[staging]) && resume == old(resume)) || partial == None
      ensures forall s :: s in old(stagings) && s != staging ==> s in stagings && stagings[s] == old(stagings[s])
      ensures old(mode).Calm? && old(destination).Absent? ==> o.Done?
      ensures Mild(old(mode)) && old(destination).Absent? ==> stagings == old(stagings) - {staging}
      ensures old(mode).FailAfter? && old(destination).Absent? ==>
        match old(mode).operations
        case 0 => o == Failed(Io) && destination == old(destination)
                  && partial == old(stagings[staging]) && resume == old(resume)
        case 1 => o == Failed(Io) && destination == Placed(entry, old(stagings[staging].value))
                  && partial == None && resume == old(resume)
        case _ => o == Done
      ensures forall s :: s in stagings ==> s in old(stagings)
    {
      if destination.Directory? {
        o := RestorePartial(entry, staging);
        if o.Failed? {
          return;
        }
        return Failed(DestinationExists);
      }
      var placed := Attempt(entry);
      if placed == Failed(Crashed) {
        return placed;
      }
      if placed.Failed? || destination.Directory? {
        o := RestorePartial(entry, staging);
        if o.Failed? {
          return;
        }
        return if destination.Directory? then Failed(DestinationExists) else Failed(Io);
      }
      destination, stagings := Placed(entry, stagings[staging].value), stagings - {staging};
      var forgotten := Attempt(entry);
      if forgotten.Failed? {
        return forgotten;
      }
      resume := None;
      o := Done;
    }

    /** The first half of an activation: the partial goes into a new staging directory beside the destination. */
    method Stage(entry: Entry, staging: nat) returns (o: Outcome)
      requires partial.Some? && staging !in stagings
      modifies this`destination, this`mode, this`partial, this`stagings
      ensures MaybeRival(entry, old(destination), destination) && Follows(old(mode), mode)
      ensures o == Done || o == Failed(Io) || o == Failed(Crashed)
      ensures o.Done? ==> partial == None && stagings == old(stagings)[staging := old(partial)]
      ensures o.Failed? ==>
        partial == old(partial) && (stagings == old(stagings) || stagings == old(stagings)[staging := None])
      ensures old(mode).Calm? ==> o == Done && destination == old(destination)
      ensures Mild(old(mode)) && o.Failed? ==> o == Failed(Io) && mode == Calm && stagings == old(stagings)
      ensures Lasts(old(mode), 2) ==> o == Done && mode == Later(old(mode), 2)
      ensures old(mode).FailAfter? && old(mode).operations < 2 ==> o.Failed?
      ensures !mode.Wild? ==> destination == old(destination)
    {
      o := Done;
      :- Attempt(entry);
      stagings := stagings[staging := None];
      var moved := Attempt(entry);
      if moved == Failed(Crashed) {
        return moved;
      }
      if moved.Failed? {
        o := RemoveStaging(entry, staging);
        if o.Failed? {
          return;
        }
        return moved;
      }
      stagings, partial := stagings[staging := partial], None;
      o := Done;
    }

    /**
     * Activation of a verified partial. Whatever operation fails or is the last before a crash: the destination is
     * as before, or another process's, or holds exactly the verified file; the bytes are never lost; and a run that
     * reports an existing destination, with or without the model's file, leaves the partial and the staging
     * directories as they were.
     */
    method Activate(entry: Entry, staging: nat) returns (o: Outcome)
      requires partial.Some? && Verified(entry.identity, partial.value) && staging !in stagings
      modifies this`destination, this`mode, this`partial, this`resume, this`stagings
      ensures destination == Placed(entry, old(partial.value)) || MaybeRival(entry, old(destination), destination)
      ensures old(destination).Directory? ==> destination == old(destination) && o.Failed?
      ensures Kept(entry, staging, old(partial.value))
      ensures o == Failed(DestinationExists) ==>
        destination.Directory? && partial == old(partial) && stagings == old(stagings) && resume == old(resume)
      ensures o.Done? ==>
        destination == Placed(entry, old(partial.value)) && partial == None && resume == None
        && stagings == old(stagings)
      ensures (partial == old(partial) && resume == old(resume)) || partial == None
      ensures forall s :: s in old(stagings) ==> s in stagings && stagings[s] == old(stagings[s])
      ensures old(mode).Calm? && old(destination).Absent? ==> o.Done?
      ensures Mild(old(mode)) ==> stagings == old(stagings)
      ensures old(mode).FailAfter? && old(destination).Absent? ==>
        if old(mode).operations < 4 then
          o == Failed(Io) && destination == old(destination) && partial == old(partial) && resume == old(resume)
        else if old(mode).operations == 4 then
          o == Failed(Io) && destination == Placed(entry, old(partial.value)) && partial == None
          && resume == old(resume)
        else o == Done
      ensures forall s :: s in stagings ==> s in old(stagings) || s == staging
    {
      o := Done;
      :- Attempt(entry);
      if destination.Directory? {
        return Failed(DestinationExists);
      }
      :- Stage(entry, staging);
      o := PlaceStaged(entry, staging);
    }

    // ----- download -----

    /** Appends the body chunk by chunk; the stream may end early or break, and a failing write may be partial. */
    method ReceiveBody(entry: Entry, body: Bytes, start: nat) returns (o: Outcome)
      requires partial.Some? && |partial.value| == start <= entry.identity.sizeBytes
      modifies this`destination, this`mode, this`partial
      ensures MaybeRival(entry, old(destination), destination) && Follows(old(mode), mode)
      ensures partial.Some? && old(partial.value) <= partial.value
      ensures partial.value <= old(partial.value) + body
      ensures o.Done? ==> |partial.value| == entry.identity.sizeBytes
      ensures old(mode).Calm? ==>
        destination == old(destination) && (o.Done? <==> start + |body| == entry.identity.sizeBytes)
      ensures old(mode) == CrashAfter(0) && start + |body| == entry.identity.sizeBytes ==>
        o == Failed(Crashed) && partial == old(partial) && destination == old(destination)
      ensures Lasts(old(mode), 2) && body != [] && start + |body| == entry.identity.sizeBytes ==>
        o == Done && mode == Later(old(mode), 2) && destination == old(destination)
    {
      var downloaded, rest := start, body;
      while rest != []
        invariant partial.Some? && |partial.value| == downloaded <= entry.identity.sizeBytes
        invariant partial.value + rest == old(partial.value) + body && old(partial.value) <= partial.value
        invariant MaybeRival(entry, old(destination), destination)
        invariant !mode.Wild? ==> destination == old(destination)
        invariant Follows(old(mode), mode) && (old(mode) == CrashAfter(0) ==> rest == body && mode == old(mode))
        invariant Lasts(old(mode), 2) && body != [] ==>
          if rest == body then mode == old(mode) else rest == [] && mode == Later(old(mode), 1)
        invariant downloaded + |rest| == start + |body|
        invariant old(mode) == CrashAfter(0) ==> partial == old(partial)
        decreases |rest|
      {
        var cancelled: bool, broken: bool, ended: bool, size: nat := *, *, *, *;
        if cancelled && mode.Wild? {
          return Failed(Cancelled);
        }
        if ended && mode.Wild? {
          break;
        }
        if broken && mode.Wild? {
          return Failed(Download);
        }
        var n := if 0 < size <= |rest| && (mode.Calm? || mode.Wild?) then size else |rest|;
        var chunk := rest[..n];
        downloaded := downloaded + |chunk|;
        if downloaded > entry.identity.sizeBytes {
          return Failed(SizeMismatch);
        }
        var written := Attempt(entry);
        if written.Failed? {
          var torn: nat := *;
          var kept := if 0 <= torn <= |chunk| && mode.Wild? then torn else 0;
          assert partial.value + chunk[..0] == partial.value;
          partial := Some(partial.value + chunk[..kept]);
          return written;
        }
        partial, rest := Some(partial.value + chunk), rest[n..];
      }
      :- Attempt(entry);
      o := if |partial.value| != entry.identity.sizeBytes then Failed(SizeMismatch) else Done;
    }

    /** Records what is being downloaded, opens the partial and appends the body to it. */
    method StoreReply(entry: Entry, body: Bytes, downloaded: nat, etag: Option<string>) returns (o: Outcome)
      requires Sound() && Published(entry) && downloaded <= entry.identity.sizeBytes
      requires downloaded > 0 ==> partial.Some? && |partial.value| == downloaded
      requires trusted && partial.Some? ==> |partial.value| == downloaded && partial.value <= catalog(entry.identity)
      requires trusted ==> body == catalog(entry.identity)[downloaded..]
      modifies this`destination, this`mode, this`partial, this`resume
      ensures Sound() && MaybeRival(entry, old(destination), destination) && Follows(old(mode), mode)
      ensures o.Done? ==> partial.Some? && |partial.value| == entry.identity.sizeBytes
      ensures o.Done? && trusted ==> partial.value == catalog(entry.identity)
      ensures old(mode).Calm? ==>
        destination == old(destination) && (o.Done? <==> downloaded + |body| == entry.identity.sizeBytes)
      ensures o.Done? ==> RecordedFor(entry)
      ensures o.Done? && downloaded + |body| == entry.identity.sizeBytes ==>
        partial == Some((if downloaded == 0 then [] else old(partial.value)) + body)
      ensures trusted && old(mode) == CrashAfter(1) ==>
        o == Failed(Crashed) && resume == Some(Torn) && partial == old(partial) && destination == old(destination)
      ensures trusted && old(mode) == CrashAfter(3) && downloaded == 0 ==>
        o == Failed(Crashed) && resume == Some(Recorded(entry.identity, etag)) && partial == Some([])
        && destination == old(destination)
      ensures Lasts(old(mode), 5) && body != [] && downloaded + |body| == entry.identity.sizeBytes ==>
        o == Done && mode == Later(old(mode), 5) && destination == old(destination)
    {
      o := WriteResumeState(entry, etag);
      if o.Failed? {
        return;
      }
      o := Attempt(entry);
      if o.Failed? {
        return;
      }
      if downloaded == 0 {
        partial := Some([]);
      }
      assert trusted ==> partial.value + body == catalog(entry.identity);
      ghost var whole := partial.value + body;
      o := ReceiveBody(entry, body, downloaded);
      assert |partial.value| == |whole| ==> partial.value == whole[..|whole|] == whole;
    }

    /** What an undisturbed run has in the end when it begins with `have`; a full reply starts over. */
    function Assembled(entry: Entry, have: Bytes, server: Server): Bytes
      requires Published(entry) && |have| <= entry.identity.sizeBytes
    {
      if |have| == entry.identity.sizeBytes then have
      else
        match server
        case Honest(ranges) =>
          if ranges then have + catalog(entry.identity)[|have|..] else catalog(entry.identity)
        case Sends(body) => body
        case Unknown => []
    }

    /** Requests what is missing and stores it; a full reply to a range request starts over. */
    method Fetch(entry: Entry, offset: nat, server: Server) returns (o: Outcome)
      requires Sound() && Published(entry) && (trusted ==> server.Honest?)
      requires offset <= entry.identity.sizeBytes
      requires offset > 0 ==> partial.Some? && |partial.value| == offset
      requires trusted && partial.Some? ==> |partial.value| == offset && partial.value <= catalog(entry.identity)
      modifies this`destination, this`mode, this`partial, this`resume
      ensures Sound() && MaybeRival(entry, old(destination), destination) && Follows(old(mode), mode)
      ensures o.Done? ==> partial.Some? && |partial.value| == entry.identity.sizeBytes
      ensures o.Done? && trusted ==> partial.value == catalog(entry.identity)
      ensures old(mode).Calm? ==> destination == old(destination)
      ensures o.Done? ==> RecordedFor(entry)
      ensures old(mode).Calm? && !server.Unknown? && offset < entry.identity.sizeBytes ==>
        var result := Assembled(entry, if offset == 0 then [] else old(partial.value), server);
        (o.Done? <==> |result| == entry.identity.sizeBytes) && (o.Done? ==> partial == Some(result))
      ensures trusted && old(mode) == CrashAfter(1) && offset == 0 ==>
        o == Failed(Crashed) && resume == Some(Torn) && partial == old(partial) && destination == old(destination)
      ensures trusted && old(mode) == CrashAfter(3) && offset == 0 ==>
        o == Failed(Crashed) && RecordedFor(entry) && partial == Some([]) && destination == old(destination)
      ensures Lasts(old(mode), 5) && server.Honest? && offset == 0 < entry.identity.sizeBytes ==>
        o == Done && mode == Later(old(mode), 5) && destination == old(destination)
        && partial == Some(catalog(entry.identity))
    {
      var reply: Reply, body: Bytes, downloaded := *, *, offset;
      if server.Sends? {
        reply, body := Full(None), server.body;
      } else if !mode.Wild? && server.Honest? {
        reply := if server.ranges && offset > 0 then Partial(None) else Full(None);
      }
      if server.Honest? {
        body := if reply.Partial? then catalog(entry.identity)[offset..] else catalog(entry.identity);
      }
      if reply.NoReply? {
        return Failed(Download);
      }
      if reply.OtherStatus? {
        return Failed(DownloadStatus);
      }
      if downloaded > 0 && reply.Full? {
        o := RemovePartial(entry);
        if o.Failed? {
          return;
        }
        :- RemoveResumeQuietly(entry);
        downloaded := 0;
      }
      assert [] + body == body && catalog(entry.identity)[0..] == catalog(entry.identity);
      o := StoreReply(entry, body, downloaded, if reply.Full? then reply.fullEtag else reply.partialEtag);
    }

    predicate NothingDownloaded()
      reads this`partial, this`resume
    {
      partial.None? && resume.None?
    }

    /** The partial has been created and nothing has been written to it. */
    predicate JustBegun(entry: Entry)
      reads this`partial, this`resume
    {
      partial == Some([]) && RecordedFor(entry)
    }

    /** Nothing is there, or a partial with metadata of this entry. */
    predicate Plain(entry: Entry)
      reads this`partial, this`resume
    {
      if partial.Some? then RecordedFor(entry) else resume.None?
    }

    /** The whole promised content is there and waits to be activated. */
    predicate Complete(entry: Entry)
      reads this`partial, this`resume
    {
      partial.Some? && RecordedFor(entry) && Verified(entry.identity, partial.value)
    }

    /** A partial of full size or more whose content is not what its metadata names. */
    predicate Stuck(entry: Entry)
      reads this`partial, this`resume
    {
      partial.Some? && RecordedFor(entry) && |partial.value| >= entry.identity.sizeBytes
      && !Verified(entry.identity, partial.value)
    }

    ghost predicate Ready(entry: Entry, d: Leftovers) {
      !Ambiguous(d) && Resumable(entry, Recovered(d), d.resume)
    }

    /** What is already there, once the old layout has been looked through. */
    method FindOffset(entry: Entry) returns (o: Outcome, downloaded: nat)
      requires Sound() && Published(entry)
      modifies this`destination, this`mode, this`partial, this`resume, this`legacy
      ensures Sound() && MaybeRival(entry, old(destination), destination) && Follows(old(mode), mode)
      ensures o.Done? ==> downloaded <= entry.identity.sizeBytes
      ensures o.Done? && downloaded > 0 ==> partial.Some? && |partial.value| == downloaded
      ensures o.Done? && trusted && partial.Some? ==>
        |partial.value| == downloaded && partial.value <= catalog(entry.identity)
      ensures old(mode).Calm? ==> destination == old(destination) && (o.Done? <==> Ready(entry, old(OnDisk())))
      ensures o.Done? ==>
        downloaded == |Found(entry, old(OnDisk()))|
        && (downloaded > 0 ==> partial == Recovered(old(OnDisk())) && resume == old(resume))
      ensures old(TornBesidePartial()) ==> o.Failed? && partial == old(partial) && resume == old(resume)
      ensures old(Stuck(entry)) ==>
        partial == old(partial) && resume == old(resume) && (o.Done? ==> downloaded == entry.identity.sizeBytes)
      ensures !old(mode).Wild? && old(Plain(entry) && Resumable(entry, partial, resume)) ==>
        o.Done? && partial == old(partial) && resume == old(resume) && destination == old(destination)
        && mode == old(mode)
    {
      o, downloaded := Done, 0;
      :- RecoverLegacyStagingPartial(entry);
      var cancelled: bool := *;
      if cancelled && mode.Wild? {
        return Failed(Cancelled), 0;
      }
      var etag;
      o, downloaded, etag := ResumeOffset(entry);
    }

    /** Everything before the request: what is already there, and whether the run goes on. */
    method Prepare(entry: Entry) returns (o: Outcome, downloaded: nat)
      requires Sound() && Published(entry)
      modifies this`destination, this`mode, this`partial, this`resume, this`legacy
      ensures Sound() && MaybeRival(entry, old(destination), destination) && Follows(old(mode), mode)
      ensures o.Done? ==> downloaded <= entry.identity.sizeBytes && (inDownloads ==> destination.Directory?)
      ensures o.Done? && downloaded > 0 ==> partial.Some? && |partial.value| == downloaded
      ensures o.Done? && trusted && partial.Some? ==>
        |partial.value| == downloaded && partial.value <= catalog(entry.identity)
      ensures old(mode).Calm? ==> destination == WithDownloads(old(destination))
      ensures old(mode).Calm? ==> (o.Done? <==> Ready(entry, old(OnDisk())))
      ensures o.Done? ==>
        downloaded == |Found(entry, old(OnDisk()))|
        && (downloaded > 0 ==> partial == Recovered(old(OnDisk())) && resume == old(resume))
      ensures old(TornBesidePartial()) ==> o.Failed? && partial == old(partial) && resume == old(resume)
      ensures old(Stuck(entry)) ==>
        partial == old(partial) && resume == old(resume) && (o.Done? ==> downloaded == entry.identity.sizeBytes)
      ensures old(mode) == FailAfter(0) ==>
        o == Failed(Io) && partial == old(partial) && resume == old(resume) && destination == old(destination)
      ensures Lasts(old(mode), 1) && old(Plain(entry) && Resumable(entry, partial, resume)) ==>
        o.Done? && partial == old(partial) && resume == old(resume)
        && destination == WithDownloads(old(destination)) && mode == Later(old(mode), 1)
    {
      o, downloaded := Done, 0;
      :- CreateDownloadDirectory(entry);
      o, downloaded := FindOffset(entry);
    }

    /** An undisturbed run gets as far as the verification: what it ends up with has the promised size. */
    ghost predicate Completes(entry: Entry, server: Server, d: Leftovers)
      requires Published(entry)
    {
      Ready(entry, d) && |Assembled(entry, Found(entry, d), server)| == entry.identity.sizeBytes
    }

    /** Everything before the verification: afterwards the partial has the promised size. */
    method Obtain(entry: Entry, server: Server) returns (o: Outcome)
      requires Sound() && Published(entry) && (trusted ==> server.Honest?) && entry.identity.sizeBytes > 0
      modifies this`destination, this`mode, this`partial, this`resume, this`legacy
      ensures Sound() && MaybeRival(entry, old(destination), destination) && Follows(old(mode), mode)
      ensures o.Done? ==>
        partial.Some? && |partial.value| == entry.identity.sizeBytes && (inDownloads ==> destination.Directory?)
      ensures o.Done? && trusted ==> partial.value == catalog(entry.identity)
      ensures old(mode).Calm? ==> destination == WithDownloads(old(destination))
      ensures old(mode).Calm? && !server.Unknown? ==> (o.Done? <==> Completes(entry, server, old(OnDisk())))
      ensures old(mode).Calm? && !server.Unknown? && o.Done? ==>
        partial == Some(Assembled(entry, Found(entry, old(OnDisk())), server)) && RecordedFor(entry)
      ensures old(TornBesidePartial()) ==> o.Failed? && partial == old(partial) && resume == old(resume)
      ensures old(Stuck(entry)) ==> partial == old(partial) && resume == old(resume)
      ensures trusted && old(mode) == CrashAfter(4) && old(NothingDownloaded()) ==>
        o == Failed(Crashed) && JustBegun(entry) && destination == WithDownloads(old(destination))
      ensures trusted && old(mode) == CrashAfter(2) && old(JustBegun(entry)) ==>
        o == Failed(Crashed) && resume == Some(Torn) && partial == old(partial)
        && destination == WithDownloads(old(destination))
      ensures old(mode) == FailAfter(0) ==>
        o == Failed(Io) && partial == old(partial) && resume == old(resume) && destination == old(destination)
      ensures Lasts(old(mode), 1) && old(Complete(entry)) ==>
        o == Done && partial == old(partial) && resume == old(resume)
        && destination == WithDownloads(old(destination)) && mode == Later(old(mode), 1)
      ensures Lasts(old(mode), 6) && old(NothingDownloaded()) && server.Honest? ==>
        o == Done && partial == Some(catalog(entry.identity)) && RecordedFor(entry)
        && destination == WithDownloads(old(destination)) && mode == Later(old(mode), 6)
    {
      var downloaded;
      o, downloaded := Prepare(entry);
      if o.Done? && downloaded != entry.identity.sizeBytes {
        o := Fetch(entry, downloaded, server);
      }
    }

    /** What an install may have done to the destination, whatever the server sent: nothing, or it has become a bare
        directory, or a directory with exactly the file of this entry, hash-verified. */
    predicate MaybeInstalled(entry: Entry, before: Destination, after: Destination) {
      after == before
      || (before.Absent?
          && (after == BARE || (Installed(entry, after) && after.files.Keys == {entry.fileName})))
    }

    /** The guard of an undisturbed run: the file is installed, or nothing is in its way. */
    ghost predicate Due(entry: Entry, server: Server, at: Destination, d: Leftovers)
      requires Published(entry)
    {
      Installed(entry, at) || (at.Absent? && !inDownloads && Succeeds(entry, server, d))
    }

    /** The guard of an undisturbed run that downloads the wrong content. */
    ghost predicate Wasted(entry: Entry, server: Server, at: Destination, d: Leftovers)
      requires Published(entry)
    {
      at.Absent? && Completes(entry, server, d) && !Succeeds(entry, server, d)
    }

    method ValidateInstalled(entry: Entry) returns (o: Outcome)
      requires destination.Directory? && entry.fileName in destination.files
      ensures o.Done? <==> Installed(entry, destination)
    {
      var content := destination.files[entry.fileName];
      if |content| != entry.identity.sizeBytes {
        return Failed(SizeMismatch);
      }
      o := if hash(content) != entry.identity.sha256 then Failed(HashMismatch) else Done;
    }

    /** What an undisturbed run ends up with is the promised content. */
    ghost predicate Succeeds(entry: Entry, server: Server, d: Leftovers)
      requires Published(entry)
    {
      Completes(entry, server, d) && Verified(entry.identity, Assembled(entry, Found(entry, d), server))
    }

    lemma TrustedDue(entry: Entry, server: Server)
      requires Sound() && trusted && server.Honest? && Published(entry)
      ensures Due(entry, server, destination, OnDisk()) <==>
        DueWhenTrusted(entry, destination, TornBesidePartial())
    {
      var have, content := Have(entry, partial, resume), catalog(entry.identity);
      if have <= content {
        assert have + content[|have|..] == content;
        assert |have| == |content| ==> have == content;
      }
    }

    /** What one failing operation does once `content` is complete after `before` operations: up to the last rename the
        partial is back where it was, afterwards the file is installed. */
    predicate FailsOnce(entry: Entry, failing: nat, before: nat, content: Bytes, o: Outcome)
      reads this`destination, this`partial
    {
      if failing < before + 4 then o == Failed(Io) && destination.Absent? && partial == Some(content)
      else destination == Placed(entry, content) && partial.None? && (o == Done <==> failing > before + 4)
    }

    /** The hash check and, if it succeeds, the activation. */
    method Finish(entry: Entry, staging: nat) returns (o: Outcome)
      requires partial.Some? && |partial.value| == entry.identity.sizeBytes && staging !in stagings
      modifies this`destination, this`mode, this`partial, this`resume, this`stagings
      ensures !Verified(entry.identity, old(partial.value)) ==>
        o == Failed(HashMismatch) && destination == old(destination) && partial == old(partial)
        && resume == old(resume) && stagings == old(stagings)
      ensures MaybeRival(entry, old(destination), destination)
        || (destination == Placed(entry, old(partial.value)) && Verified(entry.identity, old(partial.value)))
      ensures old(destination).Directory? ==> destination == old(destination) && o.Failed?
      ensures o.Done? ==> destination == Placed(entry, old(partial.value))
      ensures old(mode).Calm? ==>
        (o.Done? <==> old(destination).Absent? && Verified(entry.identity, old(partial.value)))
      ensures old(mode).Calm? && o.Failed? ==> destination == old(destination)
      ensures (partial == old(partial) && resume == old(resume)) || partial == None
      ensures Mild(old(mode)) ==> stagings == old(stagings)
      ensures old(mode).FailAfter? && old(destination).Absent? && Verified(entry.identity, old(partial.value)) ==>
        FailsOnce(entry, old(mode).operations, 0, old(partial.value), o)
        && (destination.Absent? ==> resume == old(resume))
      ensures forall s :: s in old(stagings) ==> s in stagings && stagings[s] == old(stagings[s])
      ensures forall s :: s in stagings ==> s in old(stagings) || s == staging
    {
      if hash(partial.value) != entry.identity.sha256 {
        return Failed(HashMismatch);
      }
      o := Activate(entry, staging);
    }

    /** The installation of an entry whose file is not there: download, verification and activation. */
    method InstallMissing(entry: Entry, staging: nat, server: Server) returns (o: Outcome)
      requires Sound() && Published(entry) && entry.identity.sizeBytes > 0 && staging !in stagings
      requires (trusted ==> server.Honest?) && !Installed(entry, destination)
      modifies this`destination, this`mode, this`partial, this`resume, this`legacy, this`stagings
      ensures Sound() && MaybeInstalled(entry, old(destination), destination)
      ensures trusted ==> MaybeRival(entry, old(destination), destination)
      ensures o.Done? ==> old(destination).Absent? && !inDownloads && Installed(entry, destination)
      ensures inDownloads && old(destination).Absent? ==> destination.Absent? || destination == BARE
      ensures old(mode).Calm? && !server.Unknown? ==>
        (o.Done? <==> old(destination).Absent? && !inDownloads && Succeeds(entry, server, old(OnDisk())))
      ensures old(mode).Calm? && !server.Unknown? && o.Done? ==>
        destination == Placed(entry, Assembled(entry, Found(entry, old(OnDisk())), server))
      ensures old(mode).Calm? && !server.Unknown? && o.Failed? && Completes(entry, server, old(OnDisk())) ==>
        Succeeds(entry, server, old(OnDisk())) || Stuck(entry)
      ensures old(mode).Calm? && o.Failed? ==> destination == WithDownloads(old(destination))
      ensures old(TornBesidePartial() || Stuck(entry)) ==>
        o.Failed? && partial == old(partial) && resume == old(resume)
      ensures trusted && old(mode) == CrashAfter(4) && old(NothingDownloaded()) ==>
        JustBegun(entry) && destination == WithDownloads(old(destination))
      ensures trusted && old(mode) == CrashAfter(2) && old(JustBegun(entry)) ==>
        TornBesidePartial() && destination == WithDownloads(old(destination))
      ensures Mild(old(mode)) ==> stagings == old(stagings)
      ensures old(mode).FailAfter? && old(destination.Absent? && Complete(entry)) && !inDownloads ==>
        FailsOnce(entry, old(mode).operations, 1, old(partial).value, o)
        && (destination.Absent? ==> resume == old(resume))
      ensures old(mode).FailAfter? && old(destination.Absent? && NothingDownloaded()) && !inDownloads ==>
        (old(mode).operations >= 6 && server.Honest? ==>
           FailsOnce(entry, old(mode).operations, 6, catalog(entry.identity), o)
           && (destination.Absent? ==> RecordedFor(entry)))
      ensures forall s :: s in old(stagings) ==> s in stagings && stagings[s] == old(stagings[s])
      ensures forall s :: s in stagings ==> s in old(stagings) || s == staging
    {
      o := Done;
      :- Obtain(entry, server);
      o := Finish(entry, staging);
    }

    predicate DueWhenTrusted(entry: Entry, d: Destination, torn: bool) {
      Installed(entry, d) || (d.Absent? && !inDownloads && !torn)
    }

    /** Settles what may go wrong in a run; for trusted stores this decides when it is due. */
    method Begin(entry: Entry, server: Server, circumstances: Mode)
      requires Sound() && Published(entry)
      modifies this`trusted, this`mode
      ensures Sound() && mode == circumstances && trusted == (old(trusted) && server.Honest?)
      ensures trusted ==>
        (Due(entry, server, destination, OnDisk()) <==> DueWhenTrusted(entry, destination, TornBesidePartial()))
    {
      trusted, mode := trusted && server.Honest?, circumstances;
      if trusted {
        TrustedDue(entry, server);
      }
    }

    /**
     * The whole installation of one entry; `staging` is the fresh name of its staging directory. A run in which
     * nothing fails succeeds exactly when the file is there and verified, or the model's directory does not exist and
     * is not the download directory, no torn metadata lies beside a partial, and the bytes assembled from what is
     * left of earlier downloads and what the server sends are the promised content. Torn metadata, a complete
     * partial with the wrong content and a directory without the file stop every run that does not find the file
     * installed.
     */
    method Install(entry: Entry, staging: nat, server: Server, circumstances: Mode) returns (o: Outcome)
      requires Sound() && Published(entry) && entry.identity.sizeBytes > 0 && staging !in stagings
      modifies this
      ensures Sound() && trusted == (old(trusted) && server.Honest?)
      ensures MaybeInstalled(entry, old(destination), destination)
      ensures trusted ==> MaybeRival(entry, old(destination), destination)
      ensures o.Done? ==> Installed(entry, destination)
      ensures old(destination).Directory? ==> (o.Done? <==> Installed(entry, old(destination)))
      ensures inDownloads && old(destination).Absent? ==> o.Failed? && (destination.Absent? || destination == BARE)
      ensures circumstances.Calm? && !server.Unknown? ==>
        (o.Done? <==> Due(entry, server, old(destination), old(OnDisk())))
      ensures circumstances.Calm? && !server.Unknown? && old(destination).Absent? && o.Done? ==>
        destination == Placed(entry, Assembled(entry, Found(entry, old(OnDisk())), server))
      ensures circumstances.Calm? && !server.Unknown? && Wasted(entry, server, old(destination), old(OnDisk())) ==>
        Stuck(entry)
      ensures circumstances.Calm? && trusted ==>
        (o.Done? <==> DueWhenTrusted(entry, old(destination), old(TornBesidePartial())))
      ensures circumstances.Calm? && o.Failed? ==> destination == WithDownloads(old(destination))
      ensures old(TornBesidePartial() || Stuck(entry)) ==>
        partial == old(partial) && resume == old(resume) && (o.Done? ==> Installed(entry, old(destination)))
      ensures circumstances == CrashAfter(4) && trusted && old(destination.Absent? && NothingDownloaded()) ==>
        destination == WithDownloads(Absent) && JustBegun(entry)
      ensures circumstances == CrashAfter(2) && trusted && old(destination.Absent? && JustBegun(entry)) ==>
        destination == WithDownloads(Absent) && TornBesidePartial()
      ensures Mild(circumstances) ==> stagings == old(stagings)
      ensures circumstances.FailAfter? && old(destination.Absent? && Complete(entry)) && !inDownloads ==>
        FailsOnce(entry, circumstances.operations, 1, old(partial).value, o)
        && (destination.Absent? ==> resume == old(resume))
      ensures circumstances.FailAfter? && old(destination.Absent? && NothingDownloaded()) && !inDownloads ==>
        (circumstances.operations >= 6 && server.Honest? ==>
           FailsOnce(entry, circumstances.operations, 6, catalog(entry.identity), o)
           && (destination.Absent? ==> RecordedFor(entry)))
      ensures forall s :: s in old(stagings) ==> s in stagings && stagings[s] == old(stagings[s])
      ensures forall s :: s in stagings ==> s in old(stagings) || s == staging
    {
      Begin(entry, server, circumstances);
      if destination.Directory? && entry.fileName in destination.files {
        o := ValidateInstalled(entry);
        return;
      }
      o := InstallMissing(entry, staging, server);
    }

    /**
     * Any number of installs, each stopped at any operation, each possibly of a newer manifest entry for the same
     * model. Whatever the servers sent, the destination is as before, or a bare directory, or holds exactly the
     * verified file of one of the entries. With honest servers that file has the served content.
     */
    method InstallRepeatedly(entries: seq<Entry>, names: seq<nat>, servers: seq<Server>, modes: seq<Mode>)
      returns (done: bool, last: nat)
      requires Sound() && |entries| == |names| == |servers| == |modes|
      requires forall i :: 0 <= i < |entries| ==> Published(entries[i]) && entries[i].identity.sizeBytes > 0
      requires forall i :: 0 <= i < |names| ==> names[i] !in stagings
      requires forall i, j :: 0 <= i < j < |names| ==> names[i] != names[j]
      modifies this
      ensures Sound()
      ensures old(trusted) && (forall i :: 0 <= i < |servers| ==> servers[i].Honest?) ==> trusted
      ensures destination == old(destination)
        || exists k :: 0 <= k < |entries| && MaybeInstalled(entries[k], old(destination), destination)
      ensures trusted ==>
        destination == old(destination) || destination == BARE
        || exists k :: 0 <= k < |entries| && destination == Placed(entries[k], catalog(entries[k].identity))
      ensures done ==> last < |entries| && Installed(entries[last], destination)
    {
      done, last := false, 0;
      var i := 0;
      while i < |names| && !done
        invariant 0 <= i <= |names| && Sound()
        invariant forall k :: i <= k < |names| ==> names[k] !in stagings
        invariant old(trusted) && (forall k :: 0 <= k < i ==> servers[k].Honest?) ==> trusted
        invariant done ==> last < i && Installed(entries[last], destination)
        invariant destination == old(destination)
          || exists k :: 0 <= k < i && MaybeInstalled(entries[k], old(destination), destination)
        invariant trusted ==>
          destination == old(destination) || destination == BARE
          || exists k :: 0 <= k < i && destination == Placed(entries[k], catalog(entries[k].identity))
      {
        ghost var before := destination;
        var o := Install(entries[i], names[i], servers[i], modes[i]);
        assert before != destination ==> MaybeInstalled(entries[i], old(destination), destination);
        done, last, i := o.Done?, i, i + 1;
      }
    }
  }

  /** For one entry: with honest servers the first install that runs to the end leaves exactly the served content. */
  method InstallOne(store: ModelStore, entry: Entry, names: seq<nat>, modes: seq<Mode>) returns (done: bool)
    requires store.Sound() && store.trusted && store.destination.Absent?
    requires store.Published(entry) && entry.identity.sizeBytes > 0
    requires |names| == |modes| && forall i :: 0 <= i < |names| ==> names[i] !in store.stagings
    requires forall i, j :: 0 <= i < j < |names| ==> names[i] != names[j]
    modifies store
    ensures store.Sound() && store.trusted
    ensures done ==> store.destination == store.Placed(entry, store.catalog(entry.identity))
  {
    var entries := seq(|names|, _ => entry);
    var servers := seq(|names|, _ => Honest(true));
    var last;
    done, last := store.InstallRepeatedly(entries, names, servers, modes);
  }

  // ----- situations that no repetition of the install gets out of -----

  /** Undisturbed installs, whatever the servers; the names of their staging directories start at `first`. */
  method InstallCalmly(store: ModelStore, entry: Entry, first: nat, servers: seq<Server>)
    returns (outcomes: seq<Outcome>)
    requires store.Sound() && store.Published(entry) && entry.identity.sizeBytes > 0
    requires forall s :: s in store.stagings ==> s < first
    requires store.destination.Directory? || store.TornBesidePartial() || store.Stuck(entry)
    requires !store.Installed(entry, store.destination)
    modifies store
    ensures |outcomes| == |servers| && forall k :: 0 <= k < |outcomes| ==> outcomes[k].Failed?
    ensures !store.Installed(entry, store.destination)
  {
    outcomes := [];
    for i := 0 to |servers|
      invariant store.Sound() && forall s :: s in store.stagings ==> s < first + i
      invariant store.destination.Directory? || store.TornBesidePartial() || store.Stuck(entry)
      invariant !store.Installed(entry, store.destination)
      invariant |outcomes| == i && forall k :: 0 <= k < i ==> outcomes[k].Failed?
    {
      var o := store.Install(entry, first + i, servers[i], Calm);
      outcomes := outcomes + [o];
    }
  }

  /** A first install crashes when the partial has just been created, a second one while it rewrites the metadata. */
  method TornMetadataBlocks(hash: Bytes -> nat, catalog: Identity -> Bytes, legacyPrefix: string, entry: Entry,
                            servers: seq<Server>)
    returns (store: ModelStore, outcomes: seq<Outcome>)
    requires |catalog(entry.identity)| == entry.identity.sizeBytes > 0
    requires hash(catalog(entry.identity)) == entry.identity.sha256
    ensures |outcomes| == |servers| && forall k :: 0 <= k < |outcomes| ==> outcomes[k].Failed?
  {
    store := new ModelStore(hash, catalog, legacyPrefix, false);
    var o := store.Install(entry, 0, Honest(true), CrashAfter(4));
    o := store.Install(entry, 1, Honest(true), CrashAfter(2));
    assert store.TornBesidePartial() && store.destination.Absent?;
    outcomes := InstallCalmly(store, entry, 2, servers);
  }

  /** A server once sends other content of the promised size: no server is asked again. */
  method WrongContentBlocks(hash: Bytes -> nat, catalog: Identity -> Bytes, legacyPrefix: string, entry: Entry,
                            body: Bytes, servers: seq<Server>)
    returns (store: ModelStore, first: Outcome, outcomes: seq<Outcome>)
    requires |catalog(entry.identity)| == |body| == entry.identity.sizeBytes > 0
    requires hash(catalog(entry.identity)) == entry.identity.sha256 != hash(body)
    ensures first.Failed? && |outcomes| == |servers| && forall k :: 0 <= k < |outcomes| ==> outcomes[k].Failed?
  {
    store := new ModelStore(hash, catalog, legacyPrefix, false);
    first := store.Install(entry, 0, Sends(body), Calm);
    assert store.Stuck(entry) && store.destination.Absent?;
    outcomes := InstallCalmly(store, entry, 1, servers);
  }

  /** The rename into place fails once, after the content has been downloaded from an honest server: the partial is
      back where it was, and the next undisturbed install needs nothing the server sends. */
  method FailedRenameRecovers(hash: Bytes -> nat, catalog: Identity -> Bytes, legacyPrefix: string, entry: Entry,
                              body: Bytes)
    returns (store: ModelStore, first: Outcome, second: Outcome)
    requires |catalog(entry.identity)| == entry.identity.sizeBytes > 0
    requires hash(catalog(entry.identity)) == entry.identity.sha256
    ensures first == Failed(Io) && second == Done
    ensures store.destination == Directory(map[entry.fileName := catalog(entry.identity)])
  {
    store := new ModelStore(hash, catalog, legacyPrefix, false);
    first := store.Install(entry, 0, Honest(true), FailAfter(9));
    assert store.destination.Absent? && store.Complete(entry);
    second := store.Install(entry, 1, Sends(body), Calm);
  }

  /** The model's directory is the download directory: the first undisturbed install fails like every other one. */
  method DownloadDirectoryBlocks(hash: Bytes -> nat, catalog: Identity -> Bytes, legacyPrefix: string, entry: Entry,
                                 servers: seq<Server>)
    returns (store: ModelStore, first: Outcome, outcomes: seq<Outcome>)
    requires |catalog(entry.identity)| == entry.identity.sizeBytes > 0
    requires hash(catalog(entry.identity)) == entry.identity.sha256
    ensures first.Failed? && |outcomes| == |servers| && forall k :: 0 <= k < |outcomes| ==> outcomes[k].Failed?
  {
    store := new ModelStore(hash, catalog, legacyPrefix, true);
    first := store.Install(entry, 0, Honest(true), Calm);
    assert store.destination == BARE;
    outcomes := InstallCalmly(store, entry, 1, servers);
  }

  /** A manifest update that renames the model's file: the installed model is in the way of the new one. */
  method RenamedFileBlocks(hash: Bytes -> nat, catalog: Identity -> Bytes, legacyPrefix: string, entry: Entry,
                           newName: string, servers: seq<Server>)
    returns (store: ModelStore, first: Outcome, outcomes: seq<Outcome>)
    requires |catalog(entry.identity)| == entry.identity.sizeBytes > 0 && newName != entry.fileName
    requires hash(catalog(entry.identity)) == entry.identity.sha256
    ensures first.Done? && |outcomes| == |servers| && forall k :: 0 <= k < |outcomes| ==> outcomes[k].Failed?
  {
    store := new ModelStore(hash, catalog, legacyPrefix, false);
    first := store.Install(entry, 0, Honest(true), Calm);
    outcomes := InstallCalmly(store, entry.(fileName := newName), 1, servers);
  }

  lemma TwoElements(a: string, b: string, names: set<string>)
    requires a != b && {a, b} <= names
    ensures |names| > 1
  {
    assert |names| == |{a, b}| + |names - {a, b}| by { assert names == {a, b} + (names - {a, b}); }
  }
}
