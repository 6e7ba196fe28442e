/**
 * Shader (render/Shader.cpp): reading a shader file with #include expansion,
 * cutting a combined source into per-stage sections at "#type" marker lines,
 * and the per-name caches of uniform and uniform-block locations.
 *
 * The file system is a map from path to content. Compiling and linking are
 * OpenGL calls: their outcome and the program id are parameters, and so are the
 * location queries glGetUniformLocation / glGetUniformBlockIndex for the
 * current program.
 */
module Shaders {
  import opened Wrappers
  import opened StrUtil
  import opened ShaderStates

  // ---------------------------------------------------------------------------
  // sections of a combined source
  // ---------------------------------------------------------------------------

  datatype Stage = Vertex | Fragment | Geometry | Compute

  /** One entry of the sources list: a stage and the text collected for it. */
  datatype Section = Section(stage: Stage, text: string)

  /** The stage a line opens, if it is exactly one of the four marker lines. */
  function Marker(line: string): Option<Stage>
  {
    if line == "#type vertex" then Some(Vertex)
    else if line == "#type fragment" then Some(Fragment)
    else if line == "#type geometry" then Some(Geometry)
    else if line == "#type compute" then Some(Compute)
    else None
  }

  /** One iteration of the loop of loadFromSource. */
  function AddLine(sections: seq<Section>, line: string): seq<Section>
  {
    match Marker(line)
    case Some(st) => sections + [Section(st, "")]
    case None =>
      if |sections| == 0 then sections
      else
        var last := sections[|sections| - 1];
        sections[..|sections| - 1] + [Section(last.stage, last.text + line + "\n")]
  }

  function SectionsOf(lines: seq<string>): seq<Section>
  {
    if |lines| == 0 then [] else AddLine(SectionsOf(lines[..|lines| - 1]), lines[|lines| - 1])
  }

  /** Reference view: the marker lines' stages, in order. */
  function Markers(lines: seq<string>): seq<Stage>
  {
    if |lines| == 0 then []
    else
      var l := lines[|lines| - 1];
      Markers(lines[..|lines| - 1]) + (if Marker(l).Some? then [Marker(l).value] else [])
  }

  /** Reference view: every non-marker line after the first marker, each followed by a newline. */
  function BodyText(lines: seq<string>): string
  {
    if |lines| == 0 then ""
    else
      var init, l := lines[..|lines| - 1], lines[|lines| - 1];
      if Marker(l).Some? || Markers(init) == [] then BodyText(init) else BodyText(init) + l + "\n"
  }

  function Stages(sections: seq<Section>): seq<Stage>
  {
    if |sections| == 0 then [] else Stages(sections[..|sections| - 1]) + [sections[|sections| - 1].stage]
  }

  function AllText(sections: seq<Section>): string
  {
    if |sections| == 0 then "" else AllText(sections[..|sections| - 1]) + sections[|sections| - 1].text
  }

  lemma StagesOfUpdatedLast(sections: seq<Section>, s: Section)
    requires |sections| > 0 && s.stage == sections[|sections| - 1].stage
    ensures Stages(sections[..|sections| - 1] + [s]) == Stages(sections)
    ensures AllText(sections[..|sections| - 1] + [s]) == AllText(sections[..|sections| - 1]) + s.text
  {
    var init := sections[..|sections| - 1];
    assert (init + [s])[..|init|] == init;
  }

  /**
   * One section per marker line, in order, and no text lost or invented: the
   * sections' texts together are the non-marker lines after the first marker.
   */
  lemma {:induction false} SectionsMatchMarkers(lines: seq<string>)
    ensures Stages(SectionsOf(lines)) == Markers(lines)
    ensures |SectionsOf(lines)| == |Markers(lines)|
    ensures AllText(SectionsOf(lines)) == BodyText(lines)
  {
    if |lines| > 0 {
      var init, l := lines[..|lines| - 1], lines[|lines| - 1];
      SectionsMatchMarkers(init);
      AddLineLaws(SectionsOf(init), l);
    }
  }

  /** One line: a marker adds a section of its stage, any other line extends the last section's text, if any. */
  lemma AddLineLaws(secs: seq<Section>, l: string)
    ensures Stages(AddLine(secs, l)) == Stages(secs) + (if Marker(l).Some? then [Marker(l).value] else [])
    ensures |AddLine(secs, l)| == |secs| + (if Marker(l).Some? then 1 else 0)
    ensures AllText(AddLine(secs, l)) == AllText(secs) + (if Marker(l).Some? || |secs| == 0 then "" else l + "\n")
  {
    match Marker(l)
    case Some(st) =>
      assert (secs + [Section(st, "")])[..|secs|] == secs;
    case None =>
      if |secs| > 0 {
        var last := secs[|secs| - 1];
        StagesOfUpdatedLast(secs, Section(last.stage, last.text + l + "\n"));
        assert AllText(secs) == AllText(secs[..|secs| - 1]) + last.text;
      }
  }

  /** Lines before the first marker are dropped: without a marker there are no sections. */
  lemma NoMarkerNoSections(lines: seq<string>)
    requires forall i :: 0 <= i < |lines| ==> Marker(lines[i]).None?
    ensures SectionsOf(lines) == []
  {
    MarkersEmpty(lines);
    SectionsMatchMarkers(lines);
  }

  lemma {:induction false} MarkersEmpty(lines: seq<string>)
    requires forall i :: 0 <= i < |lines| ==> Marker(lines[i]).None?
    ensures Markers(lines) == []
  {
    if |lines| > 0 {
      MarkersEmpty(lines[..|lines| - 1]);
    }
  }

  // ---------------------------------------------------------------------------
  // reading a file with #include expansion
  // ---------------------------------------------------------------------------

  /** The lines std::getline yields: no empty line after a final newline. */
  function GetLines(content: string): seq<string>
  {
    var p := SplitSpec(content, "\n", true);
    if |p| > 0 && p[|p| - 1] == "" then p[..|p| - 1] else p
  }

  /** match(line, "#include") == 8: the line starts with #include. */
  predicate IsInclude(line: string)
  {
    |line| >= 8 && line[..8] == "#include"
  }

  /** The first '"'-separated piece of the second ' '-separated token, if both exist. */
  function IncludeName(line: string): Option<string>
  {
    var parts := SplitSpec(line, " ", false);
    if |parts| >= 2 then
      var pieces := SplitSpec(parts[1], "\"", false);
      if |pieces| >= 1 then Some(pieces[0]) else None
    else None
  }

  /** The position of the last '/' in path. */
  function LastSlash(path: string): (r: Option<nat>)
    ensures r.Some? ==> r.value < |path| && path[r.value] == '/'
    ensures r.Some? ==> forall j :: r.value < j < |path| ==> path[j] != '/'
    ensures r.None? ==> forall j :: 0 <= j < |path| ==> path[j] != '/'
  {
    if |path| == 0 then None
    else if path[|path| - 1] == '/' then Some(|path| - 1)
    else LastSlash(path[..|path| - 1])
  }

  /**
   * parent_path(): everything before the last '/', the root "/" when that
   * '/' is the first character, and "" without any '/'.
   */
  function ParentPath(path: string): (r: string)
    ensures r <= path
    ensures (forall j :: 0 <= j < |path| ==> path[j] != '/') ==> r == ""
    ensures |r| < |path| ==> forall j :: |r| < j < |path| ==> path[j] != '/'
    ensures r != "" && r != "/" ==> |r| < |path| && path[|r|] == '/'
  {
    match LastSlash(path)
    case Some(i) => if i == 0 then path[..1] else path[..i]
    case None => ""
  }

  /** parent_path() on a nested, a top-level and a bare file name, and the include path built from each. */
  lemma ParentPathCases(name: string)
    ensures ParentPath("shaders/a.glsl") == "shaders" && IncludePath("shaders/a.glsl", name) == "shaders/" + name
    ensures ParentPath("/a.glsl") == "/" && IncludePath("/a.glsl", name) == "//" + name
    ensures ParentPath("a.glsl") == "" && IncludePath("a.glsl", name) == "/" + name
  {
    assert LastSlash("shaders/a.glsl") == Some(7) by {
      assert "shaders/a.glsl"[..|"shaders/a.glsl"| - 1] == "shaders/a.gls";
      assert "shaders/a.gls"[..12] == "shaders/a.gl";
      assert "shaders/a.gl"[..11] == "shaders/a.g";
      assert "shaders/a.g"[..10] == "shaders/a.";
      assert "shaders/a."[..9] == "shaders/a";
      assert "shaders/a"[..8] == "shaders/";
    }
    var root := "/a.glsl";
    assert root[0] == '/';
    assert forall j :: 0 < j < |root| ==> root[j] != '/';
    assert LastSlash(root) == Some(0);
    var bare := "a.glsl";
    assert forall j :: 0 <= j < |bare| ==> bare[j] != '/';
  }

  function IncludePath(file: string, name: string): string
  {
    ParentPath(file) + "/" + name
  }

  /**
   * loadSourceFile: None when the file cannot be opened. fuel bounds the
   * nesting depth of includes; an include below that depth is dropped.
   */
  function LoadSpec(files: map<string, string>, file: string, fuel: nat): Option<string>
    decreases fuel, 2, 0
  {
    if file !in files then None
    else Some(ExpandLines(files, file, GetLines(files[file]), fuel))
  }

  function ExpandLines(files: map<string, string>, file: string, lines: seq<string>, fuel: nat): string
    decreases fuel, 1, |lines|
  {
    if |lines| == 0 then ""
    else ExpandLines(files, file, lines[..|lines| - 1], fuel) + ExpandLine(files, file, lines[|lines| - 1], fuel)
  }

  /** What one line contributes: an include's loaded text and a newline, or the line and a newline. */
  function ExpandLine(files: map<string, string>, file: string, line: string, fuel: nat): string
    decreases fuel, 0, 0
  {
    if IsInclude(line) then
      match IncludeName(line)
      case None => ""
      case Some(name) =>
        if fuel == 0 then ""
        else match LoadSpec(files, IncludePath(file, name), fuel - 1)
          case Some(sub) => sub + "\n"
          case None => ""
    else line + "\n"
  }

  /** Each line followed by a newline. */
  function Terminated(lines: seq<string>): string
  {
    if |lines| == 0 then "" else Terminated(lines[..|lines| - 1]) + lines[|lines| - 1] + "\n"
  }

  lemma {:induction false} TerminatedIsJoin(lines: seq<string>)
    ensures Join(lines + [""], "\n") == Terminated(lines)
  {
    if |lines| > 0 {
      TerminatedNonEmpty(lines);
      JoinSnoc(lines, "", "\n");
    }
  }

  lemma {:induction false} TerminatedNonEmpty(lines: seq<string>)
    requires |lines| > 0
    ensures Terminated(lines) == Join(lines, "\n") + "\n"
  {
    var init := lines[..|lines| - 1];
    if |init| > 0 {
      TerminatedNonEmpty(init);
      JoinSnoc(init, lines[|lines| - 1], "\n");
      assert init + [lines[|lines| - 1]] == lines;
    }
  }

  lemma {:induction false} KeepAll(parts: seq<string>)
    ensures Keep(parts, true) == parts
  {
    if |parts| > 0 {
      KeepAll(parts[1..]);
    }
  }

  /** Reading a file back line by line: the lines of a newline-terminated text are its lines. */
  lemma GetLinesOfTerminated(lines: seq<string>)
    requires forall i, j :: 0 <= i < |lines| && 0 <= j < |lines[i]| ==> lines[i][j] != '\n'
    ensures GetLines(Terminated(lines)) == lines
  {
    var parts := lines + [""];
    assert FreeOf(parts, '\n') by {
      forall k, j | 0 <= k < |parts| && 0 <= j < |parts[k]| ensures parts[k][j] != '\n' {
        assert parts[k] == lines[k];
      }
    }
    TerminatedIsJoin(lines);
    SplitJoinSingleChar(parts, '\n', true);
    KeepAll(parts);
    assert parts[..|parts| - 1] == lines;
  }

  lemma {:induction false} ExpandPlainLines(files: map<string, string>, file: string, lines: seq<string>, fuel: nat)
    requires forall i :: 0 <= i < |lines| ==> !IsInclude(lines[i])
    ensures ExpandLines(files, file, lines, fuel) == Terminated(lines)
  {
    if |lines| > 0 {
      ExpandPlainLines(files, file, lines[..|lines| - 1], fuel);
    }
  }

  /** A file without include lines is read back verbatim, every line newline-terminated. */
  lemma PlainFileLoadsVerbatim(files: map<string, string>, file: string, lines: seq<string>, fuel: nat)
    requires file in files && files[file] == Terminated(lines)
    requires forall i, j :: 0 <= i < |lines| && 0 <= j < |lines[i]| ==> lines[i][j] != '\n'
    requires forall i :: 0 <= i < |lines| ==> !IsInclude(lines[i])
    ensures LoadSpec(files, file, fuel) == Some(files[file])
  {
    GetLinesOfTerminated(lines);
    ExpandPlainLines(files, file, lines, fuel);
  }

  /** A missing file fails, and so the include line naming it contributes nothing. */
  lemma MissingFileFails(files: map<string, string>, file: string, fuel: nat)
    requires file !in files
    ensures LoadSpec(files, file, fuel).None?
  {
  }

  /** The include syntax: #include "name" names the file name, for a name without blanks or quotes. */
  lemma IncludeLineNames(name: string)
    requires |name| > 0
    requires forall j :: 0 <= j < |name| ==> name[j] != ' ' && name[j] != '"'
    ensures IsInclude("#include \"" + name + "\"")
    ensures IncludeName("#include \"" + name + "\"") == Some(name)
  {
    var line := "#include \"" + name + "\"";
    var quoted := "\"" + name + "\"";
    assert line == "#include" + " " + quoted;
    var parts := ["#include", quoted];
    assert Join(parts, " ") == line by {
      assert parts[..1] == ["#include"];
    }
    assert FreeOf(parts, ' ') by {
      forall k, j | 0 <= k < |parts| && 0 <= j < |parts[k]| ensures parts[k][j] != ' ' {
        if k == 1 && 0 < j < |quoted| - 1 {
          assert quoted[j] == name[j - 1];
        }
      }
    }
    SplitJoinSingleChar(parts, ' ', false);
    assert Keep(parts, false) == parts by {
      assert Keep(parts, false) == ["#include"] + Keep([quoted], false);
      assert Keep([quoted], false) == [quoted] + Keep([], false);
    }
    var pieces := ["", name, ""];
    assert Join(pieces, "\"") == quoted by {
      assert pieces[..2][..1] == [""] && pieces[..2] == ["", name];
      assert Join(["", name], "\"") == "" + "\"" + name;
    }
    assert FreeOf(pieces, '"');
    SplitJoinSingleChar(pieces, '"', false);
    assert Keep(pieces, false) == [name] by {
      assert Keep(pieces, false) == [] + Keep([name, ""], false);
      assert Keep([name, ""], false) == [name] + Keep([""], false);
      assert Keep([""], false) == [] + Keep([], false);
    }
  }

  /** The longest common prefix with "#include" has length 8 exactly for include lines. */
  lemma MatchIsInclude(line: string, n: nat)
    requires n <= |line| && n <= 8 && line[..n] == "#include"[..n]
    requires n == |line| || n == 8 || line[n] != "#include"[n]
    ensures n == 8 <==> IsInclude(line)
  {
  }

  function NotFound(): nat { 0xFFFF_FFFF }

  /** A location cache lookup: (location, cache afterwards, whether the query ran). */
  function CacheLookup(cache: map<string, nat>, name: string, query: string -> nat): (nat, map<string, nat>, bool)
  {
    if name in cache then (cache[name], cache, false)
    else (query(name), cache[name := query(name)], true)
  }

  /** The cache holds only what the query answers for the current program. */
  predicate CacheAgrees(cache: map<string, nat>, query: string -> nat)
  {
    forall n :: n in cache ==> cache[n] == query(n)
  }

  /**
   * A hit never queries; a miss queries once and caches the answer, a not-found
   * answer included, so a second lookup of the same name is a hit. With an
   * agreeing cache every lookup returns what the query would.
   */
  lemma CacheLookupLaws(cache: map<string, nat>, name: string, query: string -> nat)
    ensures var (loc, cache', queried) := CacheLookup(cache, name, query);
            (queried <==> name !in cache) &&
            name in cache' && cache'[name] == loc &&
            (forall n :: n in cache && n != name ==> n in cache' && cache'[n] == cache[n]) &&
            CacheLookup(cache', name, query) == (loc, cache', false) &&
            (CacheAgrees(cache, query) ==> loc == query(name) && CacheAgrees(cache', query))
  {
  }

  class Shader<V> {
    var id: nat
    var file: string
    var sources: seq<Section>
    var locations: map<string, nat>
    var bufferLocations: map<string, nat>
    const state: ShaderState<V>

    constructor ()
      ensures id == 0 && file == "" && sources == [] && locations == map[] && bufferLocations == map[]
      ensures fresh(state) && state.states == []
    {
      id := 0;
      file := "";
      sources := [];
      locations := map[];
      bufferLocations := map[];
      state := new ShaderState();
    }

    /** The marker loop of loadFromSource. */
    static method CutSections(lines: seq<string>) returns (sections: seq<Section>)
      ensures sections == SectionsOf(lines)
    {
      sections := [];
      var i := 0;
      while i < |lines|
        invariant 0 <= i <= |lines| && sections == SectionsOf(lines[..i])
      {
        assert lines[..i + 1][..i] == lines[..i];
        var line := lines[i];
        var m := Marker(line);
        if m.Some? {
          sections := sections + [Section(m.value, "")];
        } else if |sections| > 0 {
          var last := sections[|sections| - 1];
          sections := sections[..|sections| - 1] + [Section(last.stage, last.text + line + "\n")];
        }
        i := i + 1;
      }
      assert lines[..i] == lines;
    }

    /** The compile loop of loadFromSource: how many sections compile. */
    static method CountCompiled(sections: seq<Section>, compiles: Section -> bool) returns (n: nat)
      ensures n <= |sections|
      ensures n == |sections| <==> forall k :: 0 <= k < |sections| ==> compiles(sections[k])
    {
      n := 0;
      var j := 0;
      while j < |sections|
        invariant 0 <= j <= |sections| && n <= j
        invariant n == j <==> forall k :: 0 <= k < j ==> compiles(sections[k])
      {
        if compiles(sections[j]) {
          n := n + 1;
        }
        j := j + 1;
      }
    }

    /**
     * loadFromSource. compiles says which sections the driver compiles, links
     * whether the program links, and programId is what glCreateProgram returns.
     * compiled is the sources list handed to the compiler.
     */
    method LoadFromSource(source: string, compiles: Section -> bool, links: bool, programId: nat)
      returns (ok: bool, compiled: seq<Section>)
      modifies this
      ensures compiled == SectionsOf(SplitSpec(source, "\n", false))
      ensures ok <==> |compiled| > 0 && (forall i :: 0 <= i < |compiled| ==> compiles(compiled[i])) && links
      ensures sources == [] && file == old(file)
      ensures ok ==> id == programId && locations == map[] && bufferLocations == map[]
      ensures !ok ==> id == old(id) && locations == old(locations) && bufferLocations == old(bufferLocations)
    {
      sources := [];
      var lines := Split(source, "\n", false);
      sources := CutSections(lines);
      compiled := sources;
      if |sources| == 0 {
        return false, compiled;
      }
      var shaderCount := CountCompiled(sources, compiles);
      if |sources| != shaderCount {
        sources := [];
        return false, compiled;
      }
      sources := [];
      if !links {
        return false, compiled;
      }
      id := programId;
      locations := map[];
      bufferLocations := map[];
      ok := true;
    }

    /** loadSourceFile: the file's lines with includes expanded, or false if it cannot be opened. */
    static method LoadSourceFile(files: map<string, string>, file: string, fuel: nat) returns (ok: bool, source: string)
      ensures ok <==> LoadSpec(files, file, fuel).Some?
      ensures ok ==> source == LoadSpec(files, file, fuel).value
      decreases fuel
    {
      if file !in files {
        return false, "";
      }
      var parts := Split(files[file], "\n", true);
      var lines := if |parts| > 0 && parts[|parts| - 1] == "" then parts[..|parts| - 1] else parts;
      assert lines == GetLines(files[file]);
      source := "";
      var i := 0;
      while i < |lines|
        invariant 0 <= i <= |lines| && source == ExpandLines(files, file, lines[..i], fuel)
      {
        assert lines[..i + 1][..i] == lines[..i];
        var line := lines[i];
        var n := Match(line, "#include");
        MatchIsInclude(line, n);
        if n == 8 {
          var tokens := Split(line, " ", false);
          if |tokens| >= 2 {
            var pieces := Split(tokens[1], "\"", false);
            if |pieces| >= 1 {
              var includeFile := ParentPath(file) + "/" + pieces[0];
              if fuel > 0 {
                var found, str := LoadSourceFile(files, includeFile, fuel - 1);
                if found {
                  source := source + str + "\n";
                }
              }
            }
          }
        } else {
          source := source + line + "\n";
        }
        i := i + 1;
      }
      assert lines[..i] == lines;
      ok := true;
    }

    /** load: read the file, remember its name, build the program. */
    method Load(files: map<string, string>, file: string, fuel: nat, compiles: Section -> bool, links: bool, programId: nat)
      returns (ok: bool)
      modifies this
      ensures LoadSpec(files, file, fuel).None? ==>
              (!ok && this.file == old(this.file) && id == old(id) &&
               locations == old(locations) && bufferLocations == old(bufferLocations))
      ensures LoadSpec(files, file, fuel).Some? ==>
              var compiled := SectionsOf(SplitSpec(LoadSpec(files, file, fuel).value, "\n", false));
              this.file == file &&
              (ok <==> |compiled| > 0 && (forall i :: 0 <= i < |compiled| ==> compiles(compiled[i])) && links) &&
              (ok ==> id == programId && locations == map[] && bufferLocations == map[])
    {
      var found, source := LoadSourceFile(files, file, fuel);
      if !found {
        return false;
      }
      this.file := file;
      var compiled;
      ok, compiled := LoadFromSource(source, compiles, links, programId);
    }

    /** getLocation: query glGetUniformLocation only on the first lookup of a name. */
    method GetLocation(name: string, query: string -> nat) returns (loc: nat, queried: bool)
      modifies this
      ensures (loc, locations, queried) == CacheLookup(old(locations), name, query)
      ensures id == old(id) && bufferLocations == old(bufferLocations) && sources == old(sources) && file == old(file)
    {
      if name in locations {
        return locations[name], false;
      }
      loc := query(name);
      locations := locations[name := loc];
      queried := true;
    }

    /** getBufferLocation: the same cache discipline for uniform blocks. */
    method GetBufferLocation(name: string, query: string -> nat) returns (loc: nat, queried: bool)
      modifies this
      ensures (loc, bufferLocations, queried) == CacheLookup(old(bufferLocations), name, query)
      ensures id == old(id) && locations == old(locations) && sources == old(sources) && file == old(file)
    {
      if name in bufferLocations {
        return bufferLocations[name], false;
      }
      loc := query(name);
      bufferLocations := bufferLocations[name := loc];
      queried := true;
    }

    /** has: no program means no uniform; the block query runs only if the uniform query finds nothing. */
    method Has(uniform: string, query: string -> nat, blockQuery: string -> nat) returns (b: bool)
      modifies this
      ensures old(id) == 0 ==> !b && locations == old(locations) && bufferLocations == old(bufferLocations)
      ensures old(id) != 0 ==>
              var (loc, cache, _) := CacheLookup(old(locations), uniform, query);
              locations == cache &&
              if loc != NotFound() then b && bufferLocations == old(bufferLocations)
              else
                var (bloc, bcache, _) := CacheLookup(old(bufferLocations), uniform, blockQuery);
                bufferLocations == bcache && (b <==> bloc != NotFound())
      ensures id == old(id)
    {
      if id == 0 {
        return false;
      }
      var loc, _ := GetLocation(uniform, query);
      if loc != NotFound() {
        return true;
      }
      var bloc, _ := GetBufferLocation(uniform, blockQuery);
      b := bloc != NotFound();
    }

    /** set(uniform, value): the location the value is sent to, and the value recorded in the state. */
    method SetUniform(uniform: string, value: V, query: string -> nat) returns (loc: nat)
      modifies this, state
      ensures (loc, locations, false) == CacheLookup(old(locations), uniform, query) ||
              (loc, locations, true) == CacheLookup(old(locations), uniform, query)
      ensures state.states == SetSpec(old(state.states), Single(uniform, value))
      ensures id == old(id) && bufferLocations == old(bufferLocations)
    {
      var queried;
      loc, queried := GetLocation(uniform, query);
      state.Set(uniform, value);
    }

    /** set(uniform, buffer): the binding point used, or None when the block is not found. */
    method SetBuffer(uniform: string, blockQuery: string -> nat) returns (binding: Option<nat>)
      modifies this
      ensures var (loc, cache, _) := CacheLookup(old(bufferLocations), uniform, blockQuery);
              bufferLocations == cache && binding == (if loc != NotFound() then Some(loc) else None)
      ensures id == old(id) && locations == old(locations)
    {
      var loc, _ := GetBufferLocation(uniform, blockQuery);
      binding := if loc != NotFound() then Some(loc) else None;
    }
  }
}
