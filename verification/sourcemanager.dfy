/**
 * The source manager's buffer table.
 *
 * Every buffer id indexes an append-only table whose entries are either a file
 * entry (a file's shared contents, where it was included from, its `line
 * directives) or an expansion entry (a macro expansion or a macro argument
 * substitution). Locations are pairs of a buffer id and an offset; the
 * queries classify a location by the entry its buffer points to and walk
 * expansion chains back to the files where text was written or used.
 *
 * The queries are functions of the table value; the class holds the state
 * and the operations that change it or loop over it.
 */
module SourceManager {

  type BufferId = nat

  /** A byte position in a buffer, or the empty sentinel that names no buffer. */
  datatype SourceLocation = NoLocation | Location(buffer: BufferId, offset: nat)

  datatype SourceRange = SourceRange(start: SourceLocation, end: SourceLocation)

  newtype uint8 = x: int | 0 <= x < 256

  /** The severity enumeration is declared elsewhere; only its values matter here. */
  type DiagnosticSeverity = nat

  datatype Option<T> = None | Some(value: T)

  /** A `line directive: the reported file name and line from a given raw line on. */
  datatype LineDirectiveInfo = LineDirectiveInfo(name: string, lineInFile: nat, lineOfDirective: nat, level: uint8)

  /** A loaded file: its name and contents, shared by every inclusion of it. */
  datatype FileData = FileData(name: string, mem: seq<char>)

  /** One inclusion of a file; `data` is the cache key of the shared file data. */
  datatype FileInfo = FileInfo(data: string, includedFrom: SourceLocation, lineDirectives: seq<LineDirectiveInfo>)

  /**
   * A macro expansion. For a body expansion `originalLoc` is in the macro's
   * definition and `expansionRange` is the usage; for an argument substitution
   * `originalLoc` is the argument at the usage and `expansionRange` is the
   * parameter inside the macro body.
   */
  datatype ExpansionInfo = ExpansionInfo(originalLoc: SourceLocation, expansionRange: SourceRange,
                                         isMacroArg: bool, macroName: string)

  datatype BufferEntry = FileEntry(file: FileInfo) | ExpansionEntry(expansion: ExpansionInfo)

  datatype DiagnosticDirectiveInfo = DiagnosticDirectiveInfo(name: string, offset: nat, severity: DiagnosticSeverity)

  /** What the buffer-producing operations hand back: the text and the new buffer id. */
  datatype SourceBuffer = SourceBuffer(data: seq<char>, id: BufferId)

  // ---------------------------------------------------------------------------
  // Well-formed tables
  // ---------------------------------------------------------------------------

  /** `loc` is the sentinel or lies in a buffer created before `bound`. */
  predicate LocBefore(loc: SourceLocation, bound: nat)
  {
    loc.NoLocation? || loc.buffer < bound
  }

  /** `loc` was issued by this table: the sentinel or an existing buffer. */
  predicate Issued(entries: seq<BufferEntry>, loc: SourceLocation)
  {
    LocBefore(loc, |entries|)
  }

  /** Expansion entries only point at earlier buffers, so every chain walk ends. */
  ghost predicate ChainsDescend(entries: seq<BufferEntry>)
  {
    forall i :: 0 <= i < |entries| && entries[i].ExpansionEntry? ==>
      && LocBefore(entries[i].expansion.originalLoc, i)
      && LocBefore(entries[i].expansion.expansionRange.start, i)
      && LocBefore(entries[i].expansion.expansionRange.end, i)
  }

  /** File entries point at earlier buffers and at cached file data. */
  ghost predicate FilesCached(entries: seq<BufferEntry>, cache: map<string, FileData>)
  {
    forall i :: 0 <= i < |entries| && entries[i].FileEntry? ==>
      entries[i].file.data in cache && LocBefore(entries[i].file.includedFrom, i)
  }

  /** Every cached path was loaded into some file buffer. */
  ghost predicate CacheLoaded(entries: seq<BufferEntry>, cache: map<string, FileData>)
  {
    forall p :: p in cache ==> exists i :: 0 <= i < |entries| && entries[i].FileEntry? && entries[i].file.data == p
  }

  /** Appending an entry, and caching the path of an appended file entry, keeps every cached path loaded. */
  lemma AppendKeepsLoaded(entries: seq<BufferEntry>, cache: map<string, FileData>, e: BufferEntry, cache': map<string, FileData>)
    requires CacheLoaded(entries, cache)
    requires forall p :: p in cache' ==> p in cache || (e.FileEntry? && e.file.data == p)
    ensures CacheLoaded(entries + [e], cache')
  {
    var after := entries + [e];
    forall p | p in cache'
      ensures exists i :: 0 <= i < |after| && after[i].FileEntry? && after[i].file.data == p
    {
      if p in cache {
        var i :| 0 <= i < |entries| && entries[i].FileEntry? && entries[i].file.data == p;
        assert after[i] == entries[i];
      } else {
        assert after[|entries|] == e;
      }
    }
  }

  /** An entry that points only at earlier buffers and at cached data can be appended as buffer `bound`. */
  ghost predicate EntryFits(e: BufferEntry, bound: nat, cache: map<string, FileData>)
  {
    match e
    case FileEntry(file) => file.data in cache && LocBefore(file.includedFrom, bound)
    case ExpansionEntry(x) =>
      LocBefore(x.originalLoc, bound) && LocBefore(x.expansionRange.start, bound) && LocBefore(x.expansionRange.end, bound)
  }

  /** Appending a fitting entry, possibly caching its file data, keeps the table well formed. */
  lemma AppendKeepsTables(entries: seq<BufferEntry>, cache: map<string, FileData>, e: BufferEntry, cache': map<string, FileData>)
    requires ChainsDescend(entries) && FilesCached(entries, cache) && CacheLoaded(entries, cache)
    requires EntryFits(e, |entries|, cache')
    requires cache.Keys <= cache'.Keys
    requires forall p :: p in cache' ==> p in cache || (e.FileEntry? && e.file.data == p)
    ensures ChainsDescend(entries + [e]) && FilesCached(entries + [e], cache') && CacheLoaded(entries + [e], cache')
  {
    var after := entries + [e];
    assert forall i :: 0 <= i < |entries| ==> after[i] == entries[i];
    assert after[|entries|] == e;
    AppendKeepsLoaded(entries, cache, e, cache');
  }

  /** Replacing a file entry by one over the same file data keeps every cached path loaded. */
  lemma ReplaceKeepsLoaded(entries: seq<BufferEntry>, cache: map<string, FileData>, b: nat, info: FileInfo)
    requires CacheLoaded(entries, cache)
    requires b < |entries| && entries[b].FileEntry? && entries[b].file.data == info.data
    ensures CacheLoaded(entries[b := FileEntry(info)], cache)
  {
    var after := entries[b := FileEntry(info)];
    forall p | p in cache
      ensures exists i :: 0 <= i < |after| && after[i].FileEntry? && after[i].file.data == p
    {
      var i :| 0 <= i < |entries| && entries[i].FileEntry? && entries[i].file.data == p;
      assert after[i].FileEntry? && after[i].file.data == p;
    }
  }

  /** Diagnostic directives listed by ascending offset. */
  ghost predicate OffsetsSorted(ds: seq<DiagnosticDirectiveInfo>)
  {
    forall i, j :: 0 <= i < j < |ds| ==> ds[i].offset <= ds[j].offset
  }

  // ---------------------------------------------------------------------------
  // Queries on the table
  // ---------------------------------------------------------------------------

  /** `loc` lies in a file buffer; the sentinel never does. */
  predicate IsFileLoc(entries: seq<BufferEntry>, loc: SourceLocation): (r: bool)
    requires Issued(entries, loc)
    ensures r ==> loc.Location? && loc.buffer < |entries|
    ensures loc.Location? && !r ==> entries[loc.buffer].ExpansionEntry?
  {
    loc.Location? && entries[loc.buffer].FileEntry?
  }

  /** `loc` lies in an expansion buffer: a real location that is not a file location. */
  predicate IsMacroLoc(entries: seq<BufferEntry>, loc: SourceLocation): (r: bool)
    requires Issued(entries, loc)
    ensures r <==> loc.Location? && !IsFileLoc(entries, loc)
  {
    loc.Location? && entries[loc.buffer].ExpansionEntry?
  }

  /** `loc` lies in an argument substitution, which is one kind of macro location. */
  predicate IsMacroArgLoc(entries: seq<BufferEntry>, loc: SourceLocation): (r: bool)
    requires Issued(entries, loc)
    ensures r ==> IsMacroLoc(entries, loc)
  {
    IsMacroLoc(entries, loc) && entries[loc.buffer].expansion.isMacroArg
  }

  /** `loc` lies in a file buffer that was included from somewhere. */
  predicate IsIncludedFileLoc(entries: seq<BufferEntry>, loc: SourceLocation): (r: bool)
    requires Issued(entries, loc)
    ensures r <==> IsFileLoc(entries, loc) && GetIncludedFrom(entries, loc.buffer).Location?
  {
    IsFileLoc(entries, loc) && entries[loc.buffer].file.includedFrom.Location?
  }

  /** `loc` is not plain source text: it is a real location that is not in a root file. */
  predicate IsPreprocessedLoc(entries: seq<BufferEntry>, loc: SourceLocation): (r: bool)
    requires Issued(entries, loc)
    ensures r <==> loc.Location? && !(IsFileLoc(entries, loc) && !IsIncludedFileLoc(entries, loc))
  {
    IsMacroLoc(entries, loc) || IsIncludedFileLoc(entries, loc)
  }

  /**
   * A location is the sentinel, a file location or a macro location, exactly
   * one of them; argument locations are macro locations, included-file
   * locations are file locations, and preprocessed means one of the two.
   */
  lemma Classification(entries: seq<BufferEntry>, loc: SourceLocation)
    requires Issued(entries, loc)
    ensures loc.NoLocation? ==> !IsFileLoc(entries, loc) && !IsMacroLoc(entries, loc)
    ensures loc.Location? ==> IsFileLoc(entries, loc) != IsMacroLoc(entries, loc)
    ensures IsMacroArgLoc(entries, loc) ==> IsMacroLoc(entries, loc)
    ensures IsIncludedFileLoc(entries, loc) ==> IsFileLoc(entries, loc)
    ensures IsPreprocessedLoc(entries, loc) <==> IsMacroLoc(entries, loc) || IsIncludedFileLoc(entries, loc)
  {
  }

  /** Where a file buffer was included from; the sentinel for a root buffer or a non-file buffer. */
  function GetIncludedFrom(entries: seq<BufferEntry>, buffer: BufferId): (r: SourceLocation)
    ensures ChainsDescend(entries) && buffer < |entries| && entries[buffer].FileEntry? ==> r == entries[buffer].file.includedFrom
    ensures r.Location? ==> buffer < |entries| && entries[buffer].FileEntry?
  {
    if buffer < |entries| && entries[buffer].FileEntry? then entries[buffer].file.includedFrom else NoLocation
  }

  /** The text of a file buffer; empty for anything else. */
  function GetSourceText(entries: seq<BufferEntry>, cache: map<string, FileData>, buffer: BufferId): seq<char>
  {
    if buffer < |entries| && entries[buffer].FileEntry? && entries[buffer].file.data in cache
    then cache[entries[buffer].file.data].mem
    else []
  }

  /** The file's own name, whatever `line directives say; empty for a non-file buffer. */
  function GetRawFileName(entries: seq<BufferEntry>, cache: map<string, FileData>, buffer: BufferId): seq<char>
  {
    if buffer < |entries| && entries[buffer].FileEntry? && entries[buffer].file.data in cache
    then cache[entries[buffer].file.data].name
    else []
  }

  /** The rank that every step up an expansion chain decreases. */
  function Rank(loc: SourceLocation): nat
  {
    if loc.Location? then loc.buffer + 1 else 0
  }

  /** `loc` moved `delta` bytes further into its buffer (the sentinel stays put). */
  function Shift(loc: SourceLocation, delta: nat): SourceLocation
  {
    if loc.Location? then Location(loc.buffer, loc.offset + delta) else NoLocation
  }

  /** The start of the expansion site of a macro location. */
  function GetExpansionLoc(entries: seq<BufferEntry>, loc: SourceLocation): (r: SourceLocation)
    requires Issued(entries, loc) && IsMacroLoc(entries, loc)
    ensures ChainsDescend(entries) ==> Issued(entries, r) && Rank(r) < Rank(loc)
  {
    entries[loc.buffer].expansion.expansionRange.start
  }

  function GetExpansionRange(entries: seq<BufferEntry>, loc: SourceLocation): (r: SourceRange)
    requires Issued(entries, loc) && IsMacroLoc(entries, loc)
    ensures ChainsDescend(entries) ==> Issued(entries, r.start) && Issued(entries, r.end)
    ensures r.start == GetExpansionLoc(entries, loc)
  {
    entries[loc.buffer].expansion.expansionRange
  }

  /** One step up the chain: the same byte in the text the expansion was made from. */
  function GetOriginalLoc(entries: seq<BufferEntry>, loc: SourceLocation): (r: SourceLocation)
    requires Issued(entries, loc) && IsMacroLoc(entries, loc)
    ensures ChainsDescend(entries) ==> Issued(entries, r) && Rank(r) < Rank(loc)
  {
    Shift(entries[loc.buffer].expansion.originalLoc, loc.offset)
  }

  /** Where the text at `loc` was written: original locations followed until not a macro location. */
  function FullyOriginal(entries: seq<BufferEntry>, loc: SourceLocation): (r: SourceLocation)
    requires ChainsDescend(entries) && Issued(entries, loc)
    ensures Issued(entries, r) && !IsMacroLoc(entries, r)
    ensures !IsMacroLoc(entries, loc) ==> r == loc
    decreases Rank(loc)
  {
    if IsMacroLoc(entries, loc) then FullyOriginal(entries, GetOriginalLoc(entries, loc)) else loc
  }

  /** The step that leaves a macro location towards its use: an argument's site is its original location. */
  function ExpansionStep(entries: seq<BufferEntry>, loc: SourceLocation): (r: SourceLocation)
    requires Issued(entries, loc) && IsMacroLoc(entries, loc)
    ensures ChainsDescend(entries) ==> Issued(entries, r) && Rank(r) < Rank(loc)
  {
    if IsMacroArgLoc(entries, loc) then GetOriginalLoc(entries, loc) else GetExpansionLoc(entries, loc)
  }

  /** Where the text at `loc` is used in a file: expansion steps followed until not a macro location. */
  function FullyExpanded(entries: seq<BufferEntry>, loc: SourceLocation): (r: SourceLocation)
    requires ChainsDescend(entries) && Issued(entries, loc)
    ensures Issued(entries, r) && !IsMacroLoc(entries, r)
    ensures !IsMacroLoc(entries, loc) ==> r == loc
    decreases Rank(loc)
  {
    if IsMacroLoc(entries, loc) then FullyExpanded(entries, ExpansionStep(entries, loc)) else loc
  }

  /** Entry `i` is a body expansion named `name`. */
  ghost predicate NamedExpansion(entries: seq<BufferEntry>, i: int, name: string)
  {
    0 <= i < |entries| && entries[i].ExpansionEntry? && !entries[i].expansion.isMacroArg
    && entries[i].expansion.macroName == name
  }

  /**
   * The macro a location comes from: argument locations defer to the macro
   * whose body holds the parameter; a non-macro location has no name.
   */
  function MacroNameOf(entries: seq<BufferEntry>, loc: SourceLocation): (r: string)
    requires ChainsDescend(entries) && Issued(entries, loc)
    ensures !IsMacroLoc(entries, loc) ==> r == []
    ensures r == [] || exists i :: NamedExpansion(entries, i, r)
    decreases Rank(loc)
  {
    if IsMacroArgLoc(entries, loc) then MacroNameOf(entries, GetExpansionLoc(entries, loc))
    else if IsMacroLoc(entries, loc) then
      assert NamedExpansion(entries, loc.buffer, entries[loc.buffer].expansion.macroName);
      entries[loc.buffer].expansion.macroName
    else []
  }

  // ---------------------------------------------------------------------------
  // Chain walks land on files
  // ---------------------------------------------------------------------------

  /** Every expansion entry was made from a real location. */
  ghost predicate OriginalsReal(entries: seq<BufferEntry>)
  {
    forall i :: 0 <= i < |entries| && entries[i].ExpansionEntry? ==> entries[i].expansion.originalLoc.Location?
  }

  /** Every expansion entry's expansion step leads to a real location. */
  ghost predicate SitesReal(entries: seq<BufferEntry>)
  {
    forall i :: 0 <= i < |entries| && entries[i].ExpansionEntry? ==>
      if entries[i].expansion.isMacroArg then entries[i].expansion.originalLoc.Location?
      else entries[i].expansion.expansionRange.start.Location?
  }

  /** When expansions are made from real locations, the fully original location is a file location. */
  lemma {:induction false} FullyOriginalIsFile(entries: seq<BufferEntry>, loc: SourceLocation)
    requires ChainsDescend(entries) && OriginalsReal(entries)
    requires Issued(entries, loc) && loc.Location?
    ensures IsFileLoc(entries, FullyOriginal(entries, loc))
    decreases Rank(loc)
  {
    if IsMacroLoc(entries, loc) {
      FullyOriginalIsFile(entries, GetOriginalLoc(entries, loc));
    }
  }

  /** When expansion sites are real locations, the fully expanded location is a file location. */
  lemma {:induction false} FullyExpandedIsFile(entries: seq<BufferEntry>, loc: SourceLocation)
    requires ChainsDescend(entries) && SitesReal(entries)
    requires Issued(entries, loc) && loc.Location?
    ensures IsFileLoc(entries, FullyExpanded(entries, loc))
    decreases Rank(loc)
  {
    if IsMacroLoc(entries, loc) {
      FullyExpandedIsFile(entries, ExpansionStep(entries, loc));
    }
  }

  lemma PrefixDescends(entries: seq<BufferEntry>, extra: seq<BufferEntry>)
    requires ChainsDescend(entries + extra)
    ensures ChainsDescend(entries)
  {
    forall i | 0 <= i < |entries| && entries[i].ExpansionEntry?
      ensures LocBefore(entries[i].expansion.originalLoc, i)
    {
      assert (entries + extra)[i] == entries[i];
    }
    forall i | 0 <= i < |entries| && entries[i].ExpansionEntry?
      ensures LocBefore(entries[i].expansion.expansionRange.start, i)
      ensures LocBefore(entries[i].expansion.expansionRange.end, i)
    {
      assert (entries + extra)[i] == entries[i];
    }
  }

  /** Appending buffers never changes what the walks answer for locations that already existed. */
  lemma {:induction false} AppendKeepsWalks(entries: seq<BufferEntry>, extra: seq<BufferEntry>, loc: SourceLocation)
    requires ChainsDescend(entries + extra) && Issued(entries, loc)
    ensures ChainsDescend(entries)
    ensures FullyOriginal(entries + extra, loc) == FullyOriginal(entries, loc)
    ensures FullyExpanded(entries + extra, loc) == FullyExpanded(entries, loc)
    ensures MacroNameOf(entries + extra, loc) == MacroNameOf(entries, loc)
    decreases Rank(loc)
  {
    PrefixDescends(entries, extra);
    if loc.Location? {
      assert (entries + extra)[loc.buffer] == entries[loc.buffer];
      if IsMacroLoc(entries, loc) {
        AppendKeepsWalks(entries, extra, GetOriginalLoc(entries, loc));
        AppendKeepsWalks(entries, extra, GetExpansionLoc(entries, loc));
      }
    }
  }

  /** `loc` classifies and walks alike in the table before and after a change. */
  ghost predicate SameWalks(before: seq<BufferEntry>, after: seq<BufferEntry>, loc: SourceLocation)
    requires ChainsDescend(before) && ChainsDescend(after) && Issued(before, loc) && Issued(after, loc)
  {
    && IsFileLoc(after, loc) == IsFileLoc(before, loc)
    && IsMacroLoc(after, loc) == IsMacroLoc(before, loc)
    && FullyOriginal(after, loc) == FullyOriginal(before, loc)
    && FullyExpanded(after, loc) == FullyExpanded(before, loc)
    && MacroNameOf(after, loc) == MacroNameOf(before, loc)
  }

  lemma AppendKeepsAllWalks(entries: seq<BufferEntry>, extra: seq<BufferEntry>)
    requires ChainsDescend(entries + extra)
    ensures ChainsDescend(entries)
    ensures forall l :: Issued(entries, l) ==> Issued(entries + extra, l) && SameWalks(entries, entries + extra, l)
  {
    PrefixDescends(entries, extra);
    forall l | Issued(entries, l) ensures SameWalks(entries, entries + extra, l) {
      AppendKeepsWalks(entries, extra, l);
      if l.Location? {
        assert (entries + extra)[l.buffer] == entries[l.buffer];
      }
    }
  }

  /**
   * The location at the start of a freshly appended expansion walks on from
   * the locations the expansion was made from.
   */
  lemma NewExpansionWalks(entries: seq<BufferEntry>, x: ExpansionInfo)
    requires ChainsDescend(entries)
    requires Issued(entries, x.originalLoc) && Issued(entries, x.expansionRange.start) && Issued(entries, x.expansionRange.end)
    ensures ChainsDescend(entries + [ExpansionEntry(x)])
    ensures var after, loc := entries + [ExpansionEntry(x)], Location(|entries|, 0);
      && Issued(after, loc) && IsMacroLoc(after, loc) && IsMacroArgLoc(after, loc) == x.isMacroArg
      && GetExpansionLoc(after, loc) == x.expansionRange.start
      && (!x.isMacroArg ==> MacroNameOf(after, loc) == x.macroName)
      && (x.isMacroArg ==> MacroNameOf(after, loc) == MacroNameOf(entries, x.expansionRange.start))
      && FullyOriginal(after, loc) == FullyOriginal(entries, x.originalLoc)
      && FullyExpanded(after, loc) == FullyExpanded(entries, if x.isMacroArg then x.originalLoc else x.expansionRange.start)
  {
    var after, loc := entries + [ExpansionEntry(x)], Location(|entries|, 0);
    assert forall i :: 0 <= i < |entries| ==> after[i] == entries[i];
    assert after[|entries|] == ExpansionEntry(x);
    assert GetOriginalLoc(after, loc) == x.originalLoc;
    AppendKeepsWalks(entries, [ExpansionEntry(x)], x.originalLoc);
    AppendKeepsWalks(entries, [ExpansionEntry(x)], x.expansionRange.start);
  }

  /** Replacing a file entry by another file entry leaves every walk as it was. */
  lemma {:induction false} ReplaceFileKeepsWalks(entries: seq<BufferEntry>, b: nat, info: FileInfo, loc: SourceLocation)
    requires ChainsDescend(entries) && b < |entries| && entries[b].FileEntry? && Issued(entries, loc)
    ensures ChainsDescend(entries[b := FileEntry(info)])
    ensures SameWalks(entries, entries[b := FileEntry(info)], loc)
    decreases Rank(loc)
  {
    var after := entries[b := FileEntry(info)];
    assert forall i :: 0 <= i < |after| && after[i].ExpansionEntry? ==> after[i] == entries[i];
    if IsMacroLoc(entries, loc) {
      assert after[loc.buffer] == entries[loc.buffer];
      ReplaceFileKeepsWalks(entries, b, info, GetOriginalLoc(entries, loc));
      ReplaceFileKeepsWalks(entries, b, info, GetExpansionLoc(entries, loc));
    }
  }

  // ---------------------------------------------------------------------------
  // Line directives of one file entry
  // ---------------------------------------------------------------------------

  /**
   * The nearest directive at or before `rawLineNumber`: the last one in the
   * list whose `lineInFile` is not after it, or none if there is no such one.
   */
  method GetPreviousLineDirective(info: FileInfo, rawLineNumber: nat) returns (r: Option<nat>)
    ensures r.None? <==> forall k :: 0 <= k < |info.lineDirectives| ==> info.lineDirectives[k].lineInFile > rawLineNumber
    ensures r.Some? ==> r.value < |info.lineDirectives| && info.lineDirectives[r.value].lineInFile <= rawLineNumber
    ensures r.Some? ==> forall k :: r.value < k < |info.lineDirectives| ==> info.lineDirectives[k].lineInFile > rawLineNumber
  {
    var ds := info.lineDirectives;
    var i := |ds|;
    while i > 0
      invariant 0 <= i <= |ds|
      invariant forall k :: i <= k < |ds| ==> ds[k].lineInFile > rawLineNumber
    {
      if ds[i - 1].lineInFile <= rawLineNumber {
        return Some(i - 1);
      }
      i := i - 1;
    }
    return None;
  }

  ghost predicate LinesSorted(ds: seq<LineDirectiveInfo>)
  {
    forall i, j :: 0 <= i < j < |ds| ==> ds[i].lineInFile <= ds[j].lineInFile
  }

  /** On directives in ascending line order, the nearest one has the greatest line at or before the target. */
  lemma PreviousIsGreatest(ds: seq<LineDirectiveInfo>, rawLineNumber: nat, r: nat)
    requires LinesSorted(ds) && r < |ds| && ds[r].lineInFile <= rawLineNumber
    requires forall k :: r < k < |ds| ==> ds[k].lineInFile > rawLineNumber
    ensures forall k :: 0 <= k < |ds| && ds[k].lineInFile <= rawLineNumber ==> ds[k].lineInFile <= ds[r].lineInFile
  {
    forall k | 0 <= k < |ds| && ds[k].lineInFile <= rawLineNumber
      ensures ds[k].lineInFile <= ds[r].lineInFile
    {
      if k < r {
        assert ds[k].lineInFile <= ds[r].lineInFile;
      }
    }
  }

  // ---------------------------------------------------------------------------
  // Names of unnamed buffers
  // ---------------------------------------------------------------------------

  function DecimalDigit(d: nat): char
    requires d < 10
  {
    "0123456789"[d]
  }

  /** The decimal spelling of `n`. */
  function NatToString(n: nat): (s: string)
    ensures |s| >= 1
    ensures (|s| == 1) == (n < 10)
    decreases n
  {
    if n < 10 then [DecimalDigit(n)] else NatToString(n / 10) + [DecimalDigit(n % 10)]
  }

  /** Different numbers are spelled differently. */
  lemma {:induction false} NatToStringInjective(a: nat, b: nat)
    requires NatToString(a) == NatToString(b)
    ensures a == b
    decreases a
  {
    if a >= 10 && b >= 10 {
      var sa, sb := NatToString(a), NatToString(b);
      assert sa[|sa| - 1] == sb[|sb| - 1];
      assert a % 10 == b % 10;
      assert sa[..|sa| - 1] == NatToString(a / 10);
      assert sb[..|sb| - 1] == NatToString(b / 10);
      NatToStringInjective(a / 10, b / 10);
    }
  }

  /** The path given to the `n`-th buffer assigned without one. */
  function UnnamedBufferPath(n: nat): string
  {
    "<unnamed_buffer" + NatToString(n) + ">"
  }

  /** Each unnamed buffer gets its own path. */
  lemma UnnamedBufferPathsDistinct(a: nat, b: nat)
    requires a != b
    ensures UnnamedBufferPath(a) != UnnamedBufferPath(b)
  {
    if UnnamedBufferPath(a) == UnnamedBufferPath(b) {
      var pa, pb := UnnamedBufferPath(a), UnnamedBufferPath(b);
      assert |NatToString(a)| == |NatToString(b)|;
      assert pa[15..|pa| - 1] == NatToString(a);
      assert pb[15..|pb| - 1] == NatToString(b);
      NatToStringInjective(a, b);
    }
  }

  // ---------------------------------------------------------------------------
  // Diagnostic directives of one buffer
  // ---------------------------------------------------------------------------

  /** The first position whose directive lies after `offset` (the end if none does). */
  method UpperBound(ds: seq<DiagnosticDirectiveInfo>, offset: nat) returns (idx: nat)
    requires OffsetsSorted(ds)
    ensures idx <= |ds|
    ensures forall k :: 0 <= k < idx ==> ds[k].offset <= offset
    ensures forall k :: idx <= k < |ds| ==> ds[k].offset > offset
  {
    var lo, hi := 0, |ds|;
    while lo < hi
      invariant 0 <= lo <= hi <= |ds|
      invariant forall k :: 0 <= k < lo ==> ds[k].offset <= offset
      invariant forall k :: hi <= k < |ds| ==> ds[k].offset > offset
    {
      var mid := (lo + hi) / 2;
      if ds[mid].offset <= offset {
        lo := mid + 1;
      } else {
        hi := mid;
      }
    }
    idx := lo;
  }

  /** Inserting at the upper bound keeps the list sorted by offset. */
  lemma InsertKeepsSorted(ds: seq<DiagnosticDirectiveInfo>, idx: nat, d: DiagnosticDirectiveInfo)
    requires OffsetsSorted(ds) && idx <= |ds|
    requires forall k :: 0 <= k < idx ==> ds[k].offset <= d.offset
    requires forall k :: idx <= k < |ds| ==> ds[k].offset > d.offset
    ensures OffsetsSorted(ds[..idx] + [d] + ds[idx..])
  {
    var r := ds[..idx] + [d] + ds[idx..];
    forall i, j | 0 <= i < j < |r| ensures r[i].offset <= r[j].offset {
      if j < idx {
        assert r[i] == ds[i] && r[j] == ds[j];
      } else if j == idx {
        assert r[i] == ds[i];
      } else if i > idx {
        assert r[i] == ds[i - 1] && r[j] == ds[j - 1];
      } else if i == idx {
        assert r[j] == ds[j - 1];
      } else {
        assert r[i] == ds[i] && r[j] == ds[j - 1];
      }
    }
  }

  // ---------------------------------------------------------------------------
  // The source manager
  // ---------------------------------------------------------------------------

  class SourceManager {
    /** Index from buffer id to buffer metadata; it only ever grows. */
    var bufferEntries: seq<BufferEntry>
    /** File data by path: at most one per path, shared by every inclusion. */
    var lookupCache: map<string, FileData>
    /** Diagnostic directives per buffer, by ascending offset. */
    var diagDirectives: map<BufferId, seq<DiagnosticDirectiveInfo>>
    /** How many buffers have been assigned without a path. */
    var unnamedBufferCount: nat
    var disableProximatePaths: bool

    ghost predicate Valid()
      reads this
    {
      && ChainsDescend(bufferEntries)
      && FilesCached(bufferEntries, lookupCache)
      && CacheLoaded(bufferEntries, lookupCache)
      && (forall b :: b in diagDirectives ==> b < |bufferEntries| && OffsetsSorted(diagDirectives[b]))
    }

    constructor ()
      ensures Valid()
      ensures bufferEntries == [] && lookupCache == map[] && diagDirectives == map[]
      ensures unnamedBufferCount == 0 && !disableProximatePaths
    {
      bufferEntries := [];
      lookupCache := map[];
      diagDirectives := map[];
      unnamedBufferCount := 0;
      disableProximatePaths := false;
    }

    /** A cached path is one that some file buffer was loaded from, and its buffers read the cached data. */
    predicate IsCached(path: string): (r: bool)
      reads this
      ensures Valid() && r ==> exists i :: 0 <= i < |bufferEntries| && bufferEntries[i].FileEntry? && bufferEntries[i].file.data == path
      ensures Valid() && !r ==> forall i :: 0 <= i < |bufferEntries| && bufferEntries[i].FileEntry? ==> bufferEntries[i].file.data != path
    {
      path in lookupCache
    }

    method SetDisableProximatePaths(disable: bool)
      modifies this
      ensures disableProximatePaths == disable
      ensures bufferEntries == old(bufferEntries) && lookupCache == old(lookupCache)
      ensures diagDirectives == old(diagDirectives) && unnamedBufferCount == old(unnamedBufferCount)
    {
      disableProximatePaths := disable;
    }

    /** Follows original locations until the location is no longer a macro location. */
    method GetFullyOriginalLoc(location: SourceLocation) returns (r: SourceLocation)
      requires Valid() && Issued(bufferEntries, location)
      ensures r == FullyOriginal(bufferEntries, location)
    {
      r := location;
      while IsMacroLoc(bufferEntries, r)
        invariant Issued(bufferEntries, r)
        invariant FullyOriginal(bufferEntries, r) == FullyOriginal(bufferEntries, location)
        decreases Rank(r)
      {
        r := GetOriginalLoc(bufferEntries, r);
      }
    }

    /** Follows expansion steps until the location is no longer a macro location. */
    method GetFullyExpandedLoc(location: SourceLocation) returns (r: SourceLocation)
      requires Valid() && Issued(bufferEntries, location)
      ensures r == FullyExpanded(bufferEntries, location)
    {
      r := location;
      while IsMacroLoc(bufferEntries, r)
        invariant Issued(bufferEntries, r)
        invariant FullyExpanded(bufferEntries, r) == FullyExpanded(bufferEntries, location)
        decreases Rank(r)
      {
        if IsMacroArgLoc(bufferEntries, r) {
          r := GetOriginalLoc(bufferEntries, r);
        } else {
          r := GetExpansionLoc(bufferEntries, r);
        }
      }
    }

    /** Leaves argument locations for their expansion sites, then reads the macro name if any. */
    method GetMacroName(location: SourceLocation) returns (name: string)
      requires Valid() && Issued(bufferEntries, location)
      ensures name == MacroNameOf(bufferEntries, location)
    {
      var loc := location;
      while IsMacroArgLoc(bufferEntries, loc)
        invariant Issued(bufferEntries, loc)
        invariant MacroNameOf(bufferEntries, loc) == MacroNameOf(bufferEntries, location)
        decreases Rank(loc)
      {
        loc := GetExpansionLoc(bufferEntries, loc);
      }
      if IsMacroLoc(bufferEntries, loc) {
        name := bufferEntries[loc.buffer].expansion.macroName;
      } else {
        name := [];
      }
    }

    /**
     * The calls the visitor receives: each buffer with diagnostic directives
     * exactly once, with its list, in the map's (unspecified) order.
     */
    method VisitDiagnosticDirectives() returns (calls: seq<(BufferId, seq<DiagnosticDirectiveInfo>)>)
      ensures forall i, j :: 0 <= i < j < |calls| ==> calls[i].0 != calls[j].0
      ensures forall i :: 0 <= i < |calls| ==> calls[i].0 in diagDirectives && calls[i].1 == diagDirectives[calls[i].0]
      ensures forall b :: b in diagDirectives ==> exists i :: 0 <= i < |calls| && calls[i].0 == b
    {
      calls := [];
      var rest := diagDirectives.Keys;
      while rest != {}
        invariant rest <= diagDirectives.Keys
        invariant forall i, j :: 0 <= i < j < |calls| ==> calls[i].0 != calls[j].0
        invariant forall i :: 0 <= i < |calls| ==> calls[i].0 in diagDirectives && calls[i].0 !in rest
        invariant forall i :: 0 <= i < |calls| ==> calls[i].1 == diagDirectives[calls[i].0]
        invariant forall b :: b in diagDirectives && b !in rest ==> exists i :: 0 <= i < |calls| && calls[i].0 == b
        decreases rest
      {
        var b :| b in rest;
        ghost var prev := calls;
        calls := calls + [(b, diagDirectives[b])];
        assert forall i :: 0 <= i < |prev| ==> calls[i] == prev[i];
        assert calls[|calls| - 1].0 == b;
        rest := rest - {b};
      }
    }

    /** Appends an argument (or unnamed) expansion entry; its location is the start of the new buffer. */
    method CreateExpansionLoc(originalLoc: SourceLocation, expansionRange: SourceRange, isMacroArg: bool)
      returns (loc: SourceLocation)
      requires Valid()
      requires Issued(bufferEntries, originalLoc)
      requires Issued(bufferEntries, expansionRange.start) && Issued(bufferEntries, expansionRange.end)
      modifies this
      ensures Valid()
      ensures bufferEntries == old(bufferEntries) + [ExpansionEntry(ExpansionInfo(originalLoc, expansionRange, isMacroArg, []))]
      ensures lookupCache == old(lookupCache) && diagDirectives == old(diagDirectives)
      ensures unnamedBufferCount == old(unnamedBufferCount) && disableProximatePaths == old(disableProximatePaths)
      ensures loc == Location(|old(bufferEntries)|, 0)
      ensures Issued(bufferEntries, loc) && IsMacroLoc(bufferEntries, loc) && IsMacroArgLoc(bufferEntries, loc) == isMacroArg
      ensures !isMacroArg ==> MacroNameOf(bufferEntries, loc) == []
      ensures isMacroArg ==> MacroNameOf(bufferEntries, loc) == MacroNameOf(old(bufferEntries), expansionRange.start)
      ensures FullyOriginal(bufferEntries, loc) == FullyOriginal(old(bufferEntries), originalLoc)
      ensures FullyExpanded(bufferEntries, loc) ==
              FullyExpanded(old(bufferEntries), if isMacroArg then originalLoc else expansionRange.start)
      ensures forall l :: Issued(old(bufferEntries), l) ==> SameWalks(old(bufferEntries), bufferEntries, l)
    {
      ghost var before := bufferEntries;
      var e := ExpansionEntry(ExpansionInfo(originalLoc, expansionRange, isMacroArg, []));
      AppendKeepsTables(bufferEntries, lookupCache, e, lookupCache);
      NewExpansionWalks(bufferEntries, e.expansion);
      bufferEntries := bufferEntries + [e];
      loc := Location(|bufferEntries| - 1, 0);
      AppendKeepsAllWalks(before, [e]);
    }

    /** Appends a body expansion of the macro `macroName`; it is never an argument entry. */
    method CreateNamedExpansionLoc(originalLoc: SourceLocation, expansionRange: SourceRange, macroName: string)
      returns (loc: SourceLocation)
      requires Valid()
      requires Issued(bufferEntries, originalLoc)
      requires Issued(bufferEntries, expansionRange.start) && Issued(bufferEntries, expansionRange.end)
      modifies this
      ensures Valid()
      ensures bufferEntries == old(bufferEntries) + [ExpansionEntry(ExpansionInfo(originalLoc, expansionRange, false, macroName))]
      ensures lookupCache == old(lookupCache) && diagDirectives == old(diagDirectives)
      ensures unnamedBufferCount == old(unnamedBufferCount) && disableProximatePaths == old(disableProximatePaths)
      ensures loc == Location(|old(bufferEntries)|, 0)
      ensures Issued(bufferEntries, loc) && IsMacroLoc(bufferEntries, loc) && !IsMacroArgLoc(bufferEntries, loc)
      ensures MacroNameOf(bufferEntries, loc) == macroName
      ensures GetExpansionLoc(bufferEntries, loc) == expansionRange.start
      ensures FullyOriginal(bufferEntries, loc) == FullyOriginal(old(bufferEntries), originalLoc)
      ensures FullyExpanded(bufferEntries, loc) == FullyExpanded(old(bufferEntries), expansionRange.start)
      ensures forall l :: Issued(old(bufferEntries), l) ==> SameWalks(old(bufferEntries), bufferEntries, l)
    {
      ghost var before := bufferEntries;
      var e := ExpansionEntry(ExpansionInfo(originalLoc, expansionRange, false, macroName));
      AppendKeepsTables(bufferEntries, lookupCache, e, lookupCache);
      NewExpansionWalks(bufferEntries, e.expansion);
      bufferEntries := bufferEntries + [e];
      loc := Location(|bufferEntries| - 1, 0);
      AppendKeepsAllWalks(before, [e]);
    }

    /**
     * Caches `buffer` under `path` unless the path is cached already (the
     * cached data then wins), and appends a file entry for this inclusion.
     */
    method CacheBuffer(path: string, includedFrom: SourceLocation, buffer: seq<char>) returns (sb: SourceBuffer)
      requires Valid() && Issued(bufferEntries, includedFrom)
      modifies this
      ensures Valid()
      ensures lookupCache == if path in old(lookupCache) then old(lookupCache) else old(lookupCache)[path := FileData(path, buffer)]
      ensures bufferEntries == old(bufferEntries) + [FileEntry(FileInfo(path, includedFrom, []))]
      ensures diagDirectives == old(diagDirectives)
      ensures unnamedBufferCount == old(unnamedBufferCount) && disableProximatePaths == old(disableProximatePaths)
      ensures sb.id == |old(bufferEntries)| && sb.data == GetSourceText(bufferEntries, lookupCache, sb.id)
      ensures IsFileLoc(bufferEntries, Location(sb.id, 0))
      ensures IsIncludedFileLoc(bufferEntries, Location(sb.id, 0)) <==> includedFrom.Location?
      ensures forall l :: Issued(old(bufferEntries), l) ==> SameWalks(old(bufferEntries), bufferEntries, l)
    {
      ghost var oldCache := lookupCache;
      if path !in lookupCache {
        lookupCache := lookupCache[path := FileData(path, buffer)];
      }
      ghost var before := bufferEntries;
      var e := FileEntry(FileInfo(path, includedFrom, []));
      AppendKeepsTables(bufferEntries, oldCache, e, lookupCache);
      bufferEntries := bufferEntries + [e];
      sb := SourceBuffer(lookupCache[path].mem, |bufferEntries| - 1);
      AppendKeepsAllWalks(before, [e]);
    }

    /** Takes `buffer` as the contents of a file at `path`. */
    method AssignBuffer(path: string, buffer: seq<char>, includedFrom: SourceLocation) returns (sb: SourceBuffer)
      requires Valid() && Issued(bufferEntries, includedFrom)
      modifies this
      ensures Valid()
      ensures lookupCache == if path in old(lookupCache) then old(lookupCache) else old(lookupCache)[path := FileData(path, buffer)]
      ensures bufferEntries == old(bufferEntries) + [FileEntry(FileInfo(path, includedFrom, []))]
      ensures diagDirectives == old(diagDirectives)
      ensures unnamedBufferCount == old(unnamedBufferCount) && disableProximatePaths == old(disableProximatePaths)
      ensures sb.id == |old(bufferEntries)| && sb.data == GetSourceText(bufferEntries, lookupCache, sb.id)
      ensures IsCached(path)
      ensures forall l :: Issued(old(bufferEntries), l) ==> SameWalks(old(bufferEntries), bufferEntries, l)
    {
      sb := CacheBuffer(path, includedFrom, buffer);
    }

    /** Copies `text` in as the contents of a file at `path`. */
    method AssignText(path: string, text: string, includedFrom: SourceLocation) returns (sb: SourceBuffer)
      requires Valid() && Issued(bufferEntries, includedFrom)
      modifies this
      ensures Valid()
      ensures lookupCache == if path in old(lookupCache) then old(lookupCache) else old(lookupCache)[path := FileData(path, text)]
      ensures bufferEntries == old(bufferEntries) + [FileEntry(FileInfo(path, includedFrom, []))]
      ensures diagDirectives == old(diagDirectives)
      ensures unnamedBufferCount == old(unnamedBufferCount) && disableProximatePaths == old(disableProximatePaths)
      ensures sb.id == |old(bufferEntries)| && sb.data == GetSourceText(bufferEntries, lookupCache, sb.id)
      ensures path !in old(lookupCache) ==> sb.data == text
      ensures forall l :: Issued(old(bufferEntries), l) ==> SameWalks(old(bufferEntries), bufferEntries, l)
    {
      sb := AssignBuffer(path, text, includedFrom);
    }

    /** Copies `text` in under a fresh "<unnamed_bufferN>" path, N counting the unnamed buffers. */
    method AssignUnnamedText(text: string, includedFrom: SourceLocation) returns (sb: SourceBuffer)
      requires Valid() && Issued(bufferEntries, includedFrom)
      modifies this
      ensures Valid()
      ensures unnamedBufferCount == old(unnamedBufferCount) + 1
      ensures var path := UnnamedBufferPath(old(unnamedBufferCount));
        && lookupCache == (if path in old(lookupCache) then old(lookupCache) else old(lookupCache)[path := FileData(path, text)])
        && bufferEntries == old(bufferEntries) + [FileEntry(FileInfo(path, includedFrom, []))]
      ensures diagDirectives == old(diagDirectives) && disableProximatePaths == old(disableProximatePaths)
      ensures sb.id == |old(bufferEntries)| && sb.data == GetSourceText(bufferEntries, lookupCache, sb.id)
      ensures forall l :: Issued(old(bufferEntries), l) ==> SameWalks(old(bufferEntries), bufferEntries, l)
    {
      var path := UnnamedBufferPath(unnamedBufferCount);
      unnamedBufferCount := unnamedBufferCount + 1;
      sb := AssignText(path, text, includedFrom);
    }

    /**
     * Records a `line directive in the file entry that `location` fully
     * expands to, at the raw line of that position; a location that expands
     * to no file is ignored. The raw line computation is `rawLineNumber`.
     */
    method AddLineDirective(location: SourceLocation, lineNum: nat, name: string, level: uint8,
                            rawLineNumber: (seq<char>, nat) -> nat)
      requires Valid() && Issued(bufferEntries, location)
      modifies this
      ensures Valid()
      ensures |bufferEntries| == |old(bufferEntries)|
      ensures var f := FullyExpanded(old(bufferEntries), location);
        if IsFileLoc(old(bufferEntries), f) then
          var info := old(bufferEntries)[f.buffer].file;
          var d := LineDirectiveInfo(name, rawLineNumber(GetSourceText(old(bufferEntries), old(lookupCache), f.buffer), f.offset), lineNum, level);
          bufferEntries == old(bufferEntries)[f.buffer := FileEntry(info.(lineDirectives := info.lineDirectives + [d]))]
        else
          bufferEntries == old(bufferEntries)
      ensures lookupCache == old(lookupCache) && diagDirectives == old(diagDirectives)
      ensures unnamedBufferCount == old(unnamedBufferCount) && disableProximatePaths == old(disableProximatePaths)
      ensures forall l :: Issued(old(bufferEntries), l) ==> Issued(bufferEntries, l) && SameWalks(old(bufferEntries), bufferEntries, l)
    {
      var fileLocation := GetFullyExpandedLoc(location);
      if IsFileLoc(bufferEntries, fileLocation) {
        var info := bufferEntries[fileLocation.buffer].file;
        var sourceLineNum := rawLineNumber(GetSourceText(bufferEntries, lookupCache, fileLocation.buffer), fileLocation.offset);
        var d := LineDirectiveInfo(name, sourceLineNum, lineNum, level);
        var info' := info.(lineDirectives := info.lineDirectives + [d]);
        forall l | Issued(bufferEntries, l)
          ensures SameWalks(bufferEntries, bufferEntries[fileLocation.buffer := FileEntry(info')], l)
        {
          ReplaceFileKeepsWalks(bufferEntries, fileLocation.buffer, info', l);
        }
        ReplaceFileKeepsWalks(bufferEntries, fileLocation.buffer, info', NoLocation);
        ReplaceKeepsLoaded(bufferEntries, lookupCache, fileLocation.buffer, info');
        bufferEntries := bufferEntries[fileLocation.buffer := FileEntry(info')];
      }
    }

    /**
     * Records a diagnostic directive for the buffer that `location` fully
     * expands to, after every directive at the same or an earlier offset.
     */
    method AddDiagnosticDirective(location: SourceLocation, name: string, severity: DiagnosticSeverity)
      requires Valid() && Issued(bufferEntries, location)
      modifies this
      ensures Valid()
      ensures var f := FullyExpanded(old(bufferEntries), location);
        if f.Location? then
          var ds := if f.buffer in old(diagDirectives) then old(diagDirectives)[f.buffer] else [];
          var d := DiagnosticDirectiveInfo(name, f.offset, severity);
          exists idx :: 0 <= idx <= |ds| && diagDirectives == old(diagDirectives)[f.buffer := ds[..idx] + [d] + ds[idx..]]
            && (forall k :: 0 <= k < idx ==> ds[k].offset <= f.offset)
            && (forall k :: idx <= k < |ds| ==> ds[k].offset > f.offset)
        else
          diagDirectives == old(diagDirectives)
      ensures bufferEntries == old(bufferEntries) && lookupCache == old(lookupCache)
      ensures unnamedBufferCount == old(unnamedBufferCount) && disableProximatePaths == old(disableProximatePaths)
    {
      var fileLocation := GetFullyExpandedLoc(location);
      if fileLocation.Location? {
        var ds := if fileLocation.buffer in diagDirectives then diagDirectives[fileLocation.buffer] else [];
        var d := DiagnosticDirectiveInfo(name, fileLocation.offset, severity);
        var idx := UpperBound(ds, fileLocation.offset);
        InsertKeepsSorted(ds, idx, d);
        diagDirectives := diagDirectives[fileLocation.buffer := ds[..idx] + [d] + ds[idx..]];
      }
    }
  }
}
