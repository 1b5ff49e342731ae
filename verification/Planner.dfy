/** How virt-builder may turn a template into a disk image: a state machine over tags. */
module Planner {
  import opened Wrappers

  datatype Key = TemplateKey | FilenameKey | SizeKey | FormatKey | XzKey

  datatype Tag = Template | Filename(name: string) | Size(bytes: int) | Format(format: string) | XZ

  datatype Task = Copy | Move | Pxzcat | VirtResize | DiskResize | Convert

  /** An association list: the first tag with a key is the one that counts. */
  type Tags = seq<Tag>

  datatype Request = Request(outputFilename: string, outputFormat: string, outputSize: int,
                             outputIsBlockDev: bool)

  const HEADROOM: int := 256 * 1024 * 1024

  function KeyOf(t: Tag): Key {
    match t
    case Template => TemplateKey
    case Filename(_) => FilenameKey
    case Size(_) => SizeKey
    case Format(_) => FormatKey
    case XZ => XzKey
  }

  function Assoc(tags: Tags, key: Key): Option<Tag> {
    if tags == [] then None
    else if KeyOf(tags[0]) == key then Some(tags[0])
    else Assoc(tags[1..], key)
  }

  predicate Is(tags: Tags, key: Key) {
    Assoc(tags, key).Some?
  }

  /** Without the first tag that has this key. */
  function Remove(tags: Tags, key: Key): Tags {
    if tags == [] then []
    else if KeyOf(tags[0]) == key then tags[1..]
    else [tags[0]] + Remove(tags[1..], key)
  }

  /** What every state has: a file and its size. */
  predicate Usable(tags: Tags) {
    Is(tags, FilenameKey) && Is(tags, SizeKey)
  }

  lemma {:induction false} AssocKey(tags: Tags, key: Key)
    ensures Is(tags, key) ==> KeyOf(Assoc(tags, key).value) == key
    decreases |tags|
  {
    if tags != [] && KeyOf(tags[0]) != key { AssocKey(tags[1..], key); }
  }

  function Infile(tags: Tags): string
    requires Usable(tags)
  {
    AssocKey(tags, FilenameKey);
    Assoc(tags, FilenameKey).value.name
  }

  function SizeOf(tags: Tags): int
    requires Usable(tags)
  {
    AssocKey(tags, SizeKey);
    Assoc(tags, SizeKey).value.bytes
  }

  /** One transition: from tags, with a name for a temporary file, by a task, to the tags out. */
  predicate Step(r: Request, tags: Tags, temp: string, task: Task, out: Tags)
    requires Usable(tags)
  {
    var elsewhere := Infile(tags) != r.outputFilename;
    var plain := Remove(tags, TemplateKey);
    match task
    case Copy =>
      || (elsewhere && out == [Filename(r.outputFilename)] + plain)
      || out == [Filename(temp)] + plain
    case Move =>
      && !Is(tags, TemplateKey)
      && (|| (!r.outputIsBlockDev && elsewhere && out == [Filename(r.outputFilename)] + tags)
          || out == [Filename(temp)] + tags)
    case Pxzcat =>
      && Is(tags, XzKey)
      && (|| (!r.outputIsBlockDev && elsewhere && out == [Filename(r.outputFilename)] + Remove(plain, XzKey))
          || out == [Filename(temp)] + Remove(plain, XzKey))
    case VirtResize =>
      && !Is(tags, XzKey) && SizeOf(tags) + HEADROOM <= r.outputSize
      && (|| (elsewhere && out == [Size(r.outputSize), Filename(r.outputFilename), Format(r.outputFormat)] + plain)
          || out == [Size(r.outputSize), Filename(temp), Format(r.outputFormat)] + plain)
    case DiskResize =>
      && !Is(tags, XzKey) && !(SizeOf(tags) + HEADROOM <= r.outputSize)
      && SizeOf(tags) < r.outputSize && !Is(tags, TemplateKey) && Is(tags, FormatKey)
      && out == [Size(r.outputSize)] + tags
    case Convert =>
      && !Is(tags, XzKey)
      && (|| (elsewhere && out == [Filename(r.outputFilename), Format(r.outputFormat)] + plain)
          || out == [Filename(temp), Format(r.outputFormat)] + plain)
  }

  /** The list of transitions, built by pushing onto the front of a variable. */
  method Transitions(r: Request, itags: Tags, tempfile: string) returns (ret: seq<(Task, Tags)>)
    requires Usable(itags)
    ensures forall task, out :: (task, out) in ret <==> Step(r, itags, tempfile, task, out)
  {
    hide Remove, Assoc;
    ret := [];
    var infile := Infile(itags);
    var plain := Remove(itags, TemplateKey);
    if infile != r.outputFilename {
      ret := [(Copy, [Filename(r.outputFilename)] + plain)] + ret;
    }
    ret := [(Copy, [Filename(tempfile)] + plain)] + ret;
    if !Is(itags, TemplateKey) {
      if !r.outputIsBlockDev && infile != r.outputFilename {
        ret := [(Move, [Filename(r.outputFilename)] + itags)] + ret;
      }
      ret := [(Move, [Filename(tempfile)] + itags)] + ret;
    }
    if Is(itags, XzKey) {
      if !r.outputIsBlockDev && infile != r.outputFilename {
        ret := [(Pxzcat, [Filename(r.outputFilename)] + Remove(plain, XzKey))] + ret;
      }
      ret := [(Pxzcat, [Filename(tempfile)] + Remove(plain, XzKey))] + ret;
    } else {
      var oldSize := SizeOf(itags);
      if r.outputSize >= oldSize + HEADROOM {
        if infile != r.outputFilename {
          ret := [(VirtResize, [Size(r.outputSize), Filename(r.outputFilename), Format(r.outputFormat)] + plain)] + ret;
        }
        ret := [(VirtResize, [Size(r.outputSize), Filename(tempfile), Format(r.outputFormat)] + plain)] + ret;
      } else if r.outputSize > oldSize && !Is(itags, TemplateKey) && Is(itags, FormatKey) {
        ret := [(DiskResize, [Size(r.outputSize)] + itags)] + ret;
      }
      if infile != r.outputFilename {
        ret := [(Convert, [Filename(r.outputFilename), Format(r.outputFormat)] + plain)] + ret;
      }
      ret := [(Convert, [Filename(tempfile), Format(r.outputFormat)] + plain)] + ret;
    }
  }

  /** The tags of a cached template. */
  function Start(template: string, size: int, format: Option<string>, compressed: bool): Tags {
    [Template, Filename(template), Size(size)]
    + (if format.Some? then [Format(format.value)] else [])
    + (if compressed then [XZ] else [])
  }

  predicate Goal(r: Request, tags: Tags) {
    && Assoc(tags, FilenameKey) == Some(Filename(r.outputFilename))
    && Assoc(tags, SizeKey) == Some(Size(r.outputSize))
    && Assoc(tags, FormatKey) == Some(Format(r.outputFormat))
    && !Is(tags, TemplateKey) && !Is(tags, XzKey)
  }

  /** A run: states, the tasks between them, and the temporary name made up at each call. */
  datatype Run = Run(states: seq<Tags>, tasks: seq<Task>, temps: seq<string>)

  ghost predicate IsRun(r: Request, start: Tags, run: Run) {
    && |run.states| == |run.tasks| + 1 && |run.temps| == |run.tasks| && run.states[0] == start
    && forall k | 0 <= k < |run.tasks| ::
         Usable(run.states[k]) && Step(r, run.states[k], run.temps[k], run.tasks[k], run.states[k + 1])
  }

  /** What a step needs to know of a state. */
  datatype View = View(template: bool, xz: bool, file: string, size: int, format: Option<string>)

  function FormatOf(tags: Tags): Option<string> {
    AssocKey(tags, FormatKey);
    if Is(tags, FormatKey) then Some(Assoc(tags, FormatKey).value.format) else None
  }

  function Count(tags: Tags, key: Key): nat {
    if tags == [] then 0 else (if KeyOf(tags[0]) == key then 1 else 0) + Count(tags[1..], key)
  }

  /** Neither of the two tags that are only ever taken away occurs twice. */
  predicate Proper(tags: Tags) {
    Usable(tags) && Count(tags, TemplateKey) <= 1 && Count(tags, XzKey) <= 1
  }

  function ViewOf(tags: Tags): View
    requires Usable(tags)
  {
    View(Is(tags, TemplateKey), Is(tags, XzKey), Infile(tags), SizeOf(tags), FormatOf(tags))
  }

  lemma {:induction false} RemoveEffect(tags: Tags, key: Key, other: Key)
    ensures other != key ==> Assoc(Remove(tags, key), other) == Assoc(tags, other)
    ensures other != key ==> Count(Remove(tags, key), other) == Count(tags, other)
    ensures Count(Remove(tags, key), key) == if Count(tags, key) == 0 then 0 else Count(tags, key) - 1
    decreases |tags|
  {
    if tags != [] && KeyOf(tags[0]) != key { RemoveEffect(tags[1..], key, other); }
  }

  lemma {:induction false} CountIs(tags: Tags, key: Key)
    ensures Is(tags, key) <==> 0 < Count(tags, key)
    decreases |tags|
  {
    if tags != [] { CountIs(tags[1..], key); }
  }

  lemma Push(tag: Tag, tags: Tags, key: Key)
    ensures Assoc([tag] + tags, key) == if KeyOf(tag) == key then Some(tag) else Assoc(tags, key)
    ensures Count([tag] + tags, key) == (if KeyOf(tag) == key then 1 else 0) + Count(tags, key)
  {
    assert ([tag] + tags)[1..] == tags;
  }

  /** The same transition on views. */
  predicate StepView(r: Request, v: View, temp: string, task: Task, w: View) {
    var elsewhere := v.file != r.outputFilename;
    var named := w.file == temp || (elsewhere && w.file == r.outputFilename);
    match task
    case Copy => named && w == v.(template := false, file := w.file)
    case Move =>
      && !v.template && w == v.(file := w.file)
      && (w.file == temp || (!r.outputIsBlockDev && named))
    case Pxzcat =>
      && v.xz && w == v.(template := false, xz := false, file := w.file)
      && (w.file == temp || (!r.outputIsBlockDev && named))
    case VirtResize =>
      && !v.xz && v.size + HEADROOM <= r.outputSize && named
      && w == v.(template := false, file := w.file, size := r.outputSize, format := Some(r.outputFormat))
    case DiskResize =>
      && !v.xz && v.size < r.outputSize < v.size + HEADROOM && !v.template && v.format.Some?
      && w == v.(size := r.outputSize)
    case Convert =>
      && !v.xz && named
      && w == v.(template := false, file := w.file, format := Some(r.outputFormat))
  }

  /** Every transition keeps a state proper, and does on views what the state machine on views
      does. */
  lemma StepOnViews(r: Request, tags: Tags, temp: string, task: Task, out: Tags)
    requires Proper(tags) && Step(r, tags, temp, task, out)
    ensures Proper(out) && StepView(r, ViewOf(tags), temp, task, ViewOf(out))
  {
    hide Assoc, Count, Remove, Proper, ViewOf, Usable;
    ProperUsable(tags);
    var plain := Remove(tags, TemplateKey);
    var bare := Remove(plain, XzKey);
    RemoveFacts(tags);
    var o := r.outputFilename;
    match task
    case Copy => PushFile(o, plain); PushFile(temp, plain);
    case Move => PushFile(o, tags); PushFile(temp, tags);
    case Pxzcat => PushFile(o, bare); PushFile(temp, bare);
    case VirtResize =>
      PushAll(r.outputSize, o, r.outputFormat, plain); PushAll(r.outputSize, temp, r.outputFormat, plain);
    case DiskResize => PushSize(r.outputSize, tags);
    case Convert => PushFormat(o, r.outputFormat, plain); PushFormat(temp, r.outputFormat, plain);
  }

  lemma ProperUsable(t: Tags)
    requires Proper(t)
    ensures Usable(t)
    ensures var v := ViewOf(t);
            v == View(Is(t, TemplateKey), Is(t, XzKey), Infile(t), SizeOf(t), v.format)
            && (v.format.Some? <==> Is(t, FormatKey))
  {
  }

  lemma PushOne(tag: Tag, t: Tags)
    requires Proper(t) && !tag.Template? && !tag.XZ?
    ensures var o, v := [tag] + t, ViewOf(t);
            && Proper(o)
            && ViewOf(o) == match tag
                            case Filename(f) => v.(file := f)
                            case Size(n) => v.(size := n)
                            case Format(g) => v.(format := Some(g))
                            case _ => v
  {
    hide Assoc, Count;
    forall key | key in {TemplateKey, XzKey, FilenameKey, SizeKey, FormatKey}
      ensures Assoc([tag] + t, key) == (if KeyOf(tag) == key then Some(tag) else Assoc(t, key))
      ensures Count([tag] + t, key) == (if KeyOf(tag) == key then 1 else 0) + Count(t, key)
    {
      Push(tag, t, key);
    }
  }

  lemma PushFile(f: string, t: Tags)
    requires Proper(t)
    ensures var o := [Filename(f)] + t; Proper(o) && ViewOf(o) == ViewOf(t).(file := f)
  {
    PushOne(Filename(f), t);
  }

  lemma PushSize(n: int, t: Tags)
    requires Proper(t)
    ensures var o := [Size(n)] + t; Proper(o) && ViewOf(o) == ViewOf(t).(size := n)
  {
    PushOne(Size(n), t);
  }

  lemma PushFormat(f: string, g: string, t: Tags)
    requires Proper(t)
    ensures var o := [Filename(f), Format(g)] + t;
            Proper(o) && ViewOf(o) == ViewOf(t).(file := f, format := Some(g))
  {
    hide Proper, ViewOf;
    PushOne(Format(g), t);
    PushOne(Filename(f), [Format(g)] + t);
    assert [Filename(f)] + ([Format(g)] + t) == [Filename(f), Format(g)] + t;
  }

  lemma PushAll(n: int, f: string, g: string, t: Tags)
    requires Proper(t)
    ensures var o := [Size(n), Filename(f), Format(g)] + t;
            Proper(o) && ViewOf(o) == ViewOf(t).(size := n, file := f, format := Some(g))
  {
    hide Proper, ViewOf;
    PushFormat(f, g, t);
    PushOne(Size(n), [Filename(f), Format(g)] + t);
    assert [Size(n)] + ([Filename(f), Format(g)] + t) == [Size(n), Filename(f), Format(g)] + t;
  }

  /** What is left after the removals. */
  lemma RemoveFacts(tags: Tags)
    requires Proper(tags)
    ensures var plain := Remove(tags, TemplateKey); var bare := Remove(plain, XzKey);
            && Proper(plain) && Proper(bare)
            && ViewOf(plain) == ViewOf(tags).(template := false)
            && ViewOf(bare) == ViewOf(tags).(template := false, xz := false)
  {
    hide Assoc, Count, Remove;
    var plain := Remove(tags, TemplateKey);
    forall key | key in {XzKey, FilenameKey, SizeKey, FormatKey}
      ensures Assoc(plain, key) == Assoc(tags, key) && Count(plain, key) == Count(tags, key)
    {
      RemoveEffect(tags, TemplateKey, key);
    }
    RemoveEffect(tags, TemplateKey, TemplateKey);
    CountIs(plain, TemplateKey);
    var bare := Remove(plain, XzKey);
    forall key | key in {TemplateKey, FilenameKey, SizeKey, FormatKey}
      ensures Assoc(bare, key) == Assoc(plain, key) && Count(bare, key) == Count(plain, key)
    {
      RemoveEffect(plain, XzKey, key);
    }
    RemoveEffect(plain, XzKey, XzKey);
    CountIs(bare, XzKey);
  }

  lemma StartKey(template: string, size: int, format: Option<string>, compressed: bool, key: Key)
    ensures var s := Start(template, size, format, compressed);
            && Assoc(s, key) == (match key
                                 case TemplateKey => Some(Template)
                                 case FilenameKey => Some(Filename(template))
                                 case SizeKey => Some(Size(size))
                                 case FormatKey => if format.Some? then Some(Format(format.value)) else None
                                 case XzKey => if compressed then Some(XZ) else None)
            && Count(s, key) <= 1
  {
    hide Assoc, Count;
    var tail := Tail(format, compressed);
    TailKey(format, compressed, key);
    Push(Size(size), tail, key);
    Push(Filename(template), [Size(size)] + tail, key);
    Push(Template, [Filename(template)] + ([Size(size)] + tail), key);
    assert Start(template, size, format, compressed)
           == [Template] + ([Filename(template)] + ([Size(size)] + tail));
  }

  function Tail(format: Option<string>, compressed: bool): Tags {
    (if format.Some? then [Format(format.value)] else []) + (if compressed then [XZ] else [])
  }

  lemma TailKey(format: Option<string>, compressed: bool, key: Key)
    ensures var s := Tail(format, compressed);
            && Assoc(s, key) == (match key
                                 case FormatKey => if format.Some? then Some(Format(format.value)) else None
                                 case XzKey => if compressed then Some(XZ) else None
                                 case _ => None)
            && Count(s, key) == (match key
                                 case FormatKey => if format.Some? then 1 else 0
                                 case XzKey => if compressed then 1 else 0
                                 case _ => 0)
  {
    var x: Tags := if compressed then [XZ] else [];
    assert compressed ==> x[1..] == [];
    if format.Some? {
      Push(Format(format.value), x, key);
      assert Tail(format, compressed) == [Format(format.value)] + x;
    } else {
      assert Tail(format, compressed) == x;
    }
  }

  lemma StartProper(template: string, size: int, format: Option<string>, compressed: bool)
    ensures var s := Start(template, size, format, compressed);
            Proper(s) && ViewOf(s) == View(true, compressed, template, size, format)
  {
    hide Assoc, Count, Start;
    StartKey(template, size, format, compressed, TemplateKey);
    StartKey(template, size, format, compressed, FilenameKey);
    StartKey(template, size, format, compressed, SizeKey);
    StartKey(template, size, format, compressed, FormatKey);
    StartKey(template, size, format, compressed, XzKey);
  }

  lemma GoalView(r: Request, tags: Tags)
    requires Usable(tags)
    ensures Goal(r, tags)
            <==> ViewOf(tags) == View(false, false, r.outputFilename, r.outputSize, Some(r.outputFormat))
  {
    hide Assoc;
    AssocKey(tags, FilenameKey);
    AssocKey(tags, SizeKey);
    AssocKey(tags, FormatKey);
  }

  /** What holds of the state after k steps from a template. */
  ghost predicate Safe(r: Request, size: int, compressed: bool, v: View, k: nat) {
    && (v.template <==> k == 0)
    && (v.xz ==> compressed)
    && (v.size == size || v.size == r.outputSize)
  }

  lemma {:induction false} RunSafe(r: Request, template: string, size: int, format: Option<string>,
                                   compressed: bool, run: Run, k: nat)
    requires IsRun(r, Start(template, size, format, compressed), run) && k < |run.states|
    ensures Proper(run.states[k]) && Usable(run.states[k])
    ensures Safe(r, size, compressed, ViewOf(run.states[k]), k)
    decreases k
  {
    hide Step, StepView, Proper, ViewOf, Start;
    if k == 0 {
      StartProper(template, size, format, compressed);
      ProperUsable(run.states[0]);
    } else {
      RunSafe(r, template, size, format, compressed, run, k - 1);
      StepOnViews(r, run.states[k - 1], run.temps[k - 1], run.tasks[k - 1], run.states[k]);
      ProperUsable(run.states[k]);
      SafeStep(r, size, compressed, ViewOf(run.states[k - 1]), run.temps[k - 1], run.tasks[k - 1],
               ViewOf(run.states[k]), k - 1);
    }
  }

  lemma SafeStep(r: Request, size: int, compressed: bool, v: View, temp: string, task: Task, w: View, k: nat)
    requires Safe(r, size, compressed, v, k) && StepView(r, v, temp, task, w)
    ensures Safe(r, size, compressed, w, k + 1)
    ensures task == Move || task == DiskResize ==> !v.template
    ensures task == VirtResize || task == DiskResize || task == Convert ==> !v.xz
    ensures size <= r.outputSize ==> v.size <= w.size
  {
  }

  /** In every run from a template, whatever the names of its files: only the first state carries
      the Template tag, so the tasks that change a file in place never get a tagged template;
      nothing that reads an image gets a compressed one; and the size is always the original or
      the requested one, and never shrinks when the requested one is no smaller. */
  lemma PlansAreSafe(r: Request, template: string, size: int, format: Option<string>, compressed: bool,
                     run: Run, k: nat)
    requires IsRun(r, Start(template, size, format, compressed), run) && k < |run.tasks|
    ensures Proper(run.states[k]) && Proper(run.states[k + 1])
    ensures var v, w, task := ViewOf(run.states[k]), ViewOf(run.states[k + 1]), run.tasks[k];
            && (v.template <==> k == 0) && !w.template
            && (task == Move || task == DiskResize ==> !v.template)
            && (task == VirtResize || task == DiskResize || task == Convert ==> !v.xz)
            && (w.size == size || w.size == r.outputSize)
            && (size <= r.outputSize ==> v.size <= w.size)
  {
    hide Step, StepView, Proper, ViewOf, Start;
    RunSafe(r, template, size, format, compressed, run, k);
    RunSafe(r, template, size, format, compressed, run, k + 1);
    StepOnViews(r, run.states[k], run.temps[k], run.tasks[k], run.states[k + 1]);
    SafeStep(r, size, compressed, ViewOf(run.states[k]), run.temps[k], run.tasks[k],
             ViewOf(run.states[k + 1]), k);
  }

  // ---- The template's own file

  /** A task that changes its input file in place. */
  predicate InPlace(task: Task) {
    task == Move || task == DiskResize
  }

  /** No run whose temporary names come from the given ones changes the template's file. */
  ghost predicate TemplateFileKept(r: Request, template: string, start: Tags, names: seq<string>) {
    forall run, k | IsRun(r, start, run) && run.temps <= names && 0 <= k < |run.tasks| && InPlace(run.tasks[k]) ::
      Infile(run.states[k]) != template
  }

  /** The names that decide it: that of the output, and all temporary ones but the last, which
      no step starts from. */
  predicate OtherNames(r: Request, template: string, names: seq<string>) {
    r.outputFilename != template && (names == [] || template !in names[..|names| - 1])
  }

  lemma {:induction false} FileElsewhere(r: Request, template: string, size: int, format: Option<string>,
                                         compressed: bool, names: seq<string>, run: Run, k: nat)
    requires IsRun(r, Start(template, size, format, compressed), run) && 0 < k < |run.tasks|
    requires run.temps <= names && OtherNames(r, template, names)
    ensures Usable(run.states[k]) && Infile(run.states[k]) != template
    decreases k
  {
    hide Step, Proper, ViewOf, Start;
    RunSafe(r, template, size, format, compressed, run, k - 1);
    RunSafe(r, template, size, format, compressed, run, k);
    StepOnViews(r, run.states[k - 1], run.temps[k - 1], run.tasks[k - 1], run.states[k]);
    RunSafe(r, template, size, format, compressed, run, k - 1);
    assert run.temps[k - 1] == names[..|names| - 1][k - 1];
    FileOfView(run.states[k - 1]);
    FileOfView(run.states[k]);
    if 1 < k { FileElsewhere(r, template, size, format, compressed, names, run, k - 1); }
  }

  lemma FileOfView(tags: Tags)
    requires Usable(tags)
    ensures ViewOf(tags).file == Infile(tags)
  {
  }

  /** The template's file is kept exactly when neither the output nor any temporary name that a
      step can start from is its name. */
  lemma TemplateFileExact(r: Request, template: string, size: int, format: Option<string>, compressed: bool,
                          names: seq<string>)
    requires 3 <= |names|
    ensures TemplateFileKept(r, template, Start(template, size, format, compressed), names)
            <==> OtherNames(r, template, names)
  {
    hide Start, Step, Usable;
    var start := Start(template, size, format, compressed);
    if OtherNames(r, template, names) {
      forall run, k | IsRun(r, start, run) && run.temps <= names && 0 <= k < |run.tasks| && InPlace(run.tasks[k])
        ensures Usable(run.states[k]) && Infile(run.states[k]) != template
      {
        InPlaceLater(r, template, size, format, compressed, run, k);
        FileElsewhere(r, template, size, format, compressed, names, run, k);
      }
    } else {
      var run, k := TemplateFileTouched(r, template, size, format, compressed, names);
    }
  }

  lemma InPlaceLater(r: Request, template: string, size: int, format: Option<string>, compressed: bool,
                     run: Run, k: nat)
    requires IsRun(r, Start(template, size, format, compressed), run) && k < |run.tasks| && InPlace(run.tasks[k])
    ensures 0 < k && Usable(run.states[k])
  {
    hide Step, Proper, ViewOf, Start;
    PlansAreSafe(r, template, size, format, compressed, run, k);
  }

  /** Appends a step to a run. */
  function Extend(run: Run, temp: string, task: Task, out: Tags): Run {
    Run(run.states + [out], run.tasks + [task], run.temps + [temp])
  }

  lemma ExtendRun(r: Request, start: Tags, run: Run, temp: string, task: Task, out: Tags)
    requires IsRun(r, start, run)
    requires var last := run.states[|run.states| - 1];
             Proper(last) && Usable(last) && Step(r, last, temp, task, out)
    ensures var t := Extend(run, temp, task, out);
            && IsRun(r, start, t) && t.states[|t.states| - 1] == out && Proper(out)
            && |t.tasks| == |run.tasks| + 1
    ensures StepView(r, ViewOf(run.states[|run.states| - 1]), temp, task, ViewOf(out))
  {
    hide Step, Usable;
    var n, t := |run.tasks|, Extend(run, temp, task, out);
    StepOnViews(r, run.states[n], temp, task, out);
    hide Proper, StepView;
    forall k | 0 <= k < n + 1
      ensures Usable(t.states[k]) && Step(r, t.states[k], t.temps[k], t.tasks[k], t.states[k + 1])
    {
      if k < n {
        assert t.states[k] == run.states[k] && t.states[k + 1] == run.states[k + 1];
      }
    }
  }

  /** Every step on views is one that a transition takes. */
  lemma StepReal(r: Request, tags: Tags, temp: string, task: Task, w: View) returns (out: Tags)
    requires Proper(tags) && StepView(r, ViewOf(tags), temp, task, w)
    ensures Usable(tags) && Step(r, tags, temp, task, out) && Proper(out) && ViewOf(out) == w
  {
    hide Assoc, Count, Remove, Proper, ViewOf, Usable;
    ProperUsable(tags);
    RemoveFacts(tags);
    var plain := Remove(tags, TemplateKey);
    match task
    case Copy => out := [Filename(w.file)] + plain; PushFile(w.file, plain);
    case Move => out := [Filename(w.file)] + tags; PushFile(w.file, tags);
    case Pxzcat =>
      var bare := Remove(plain, XzKey);
      out := [Filename(w.file)] + bare;
      PushFile(w.file, bare);
    case VirtResize =>
      out := [Size(r.outputSize), Filename(w.file), Format(r.outputFormat)] + plain;
      PushAll(r.outputSize, w.file, r.outputFormat, plain);
    case DiskResize => out := [Size(r.outputSize)] + tags; PushSize(r.outputSize, tags);
    case Convert =>
      out := [Filename(w.file), Format(r.outputFormat)] + plain;
      PushFormat(w.file, r.outputFormat, plain);
  }

  // ---- The length of the shortest plan

  /** How many steps a state is away from the goal. */
  function Distance(r: Request, v: View): nat {
    var there, right := v.file == r.outputFilename, v.format == Some(r.outputFormat);
    var grow := v.size < r.outputSize < v.size + HEADROOM;
    if v.xz then
      var direct := !there && !r.outputIsBlockDev && right;
      if direct && v.size == r.outputSize then 1 else if grow && !direct then 3 else 2
    else if !there then if grow then 2 else 1
    else if v.template then if grow then 3 else 2
    else if right && (grow || v.size == r.outputSize) then if grow then 1 else 0
    else if grow then 3 else 2
  }

  /** No step comes nearer by more than one, unless the name for its temporary file is that of
      the output. */
  lemma DistanceStep(r: Request, v: View, temp: string, task: Task, w: View)
    requires StepView(r, v, temp, task, w) && temp != r.outputFilename && v.size <= r.outputSize
    ensures Distance(r, v) <= Distance(r, w) + 1 && w.size <= r.outputSize
  {
  }

  /** A task that brings a state one step nearer, and where it puts the file. */
  function Nearer(r: Request, v: View, temp: string): (Task, View) {
    var o := r.outputFilename;
    var there, right := v.file == o, v.format == Some(r.outputFormat);
    var far := v.size + HEADROOM <= r.outputSize;
    if v.xz then
      (Pxzcat, v.(template := false, xz := false,
                  file := if !there && !r.outputIsBlockDev && right && !far then o else temp))
    else if there && right && !v.template && !far then (DiskResize, v.(size := r.outputSize))
    else
      var w := v.(template := false, file := if there then temp else o, format := Some(r.outputFormat));
      if far then (VirtResize, w.(size := r.outputSize)) else (Convert, w)
  }

  lemma NearerIs(r: Request, v: View, temp: string)
    requires temp != r.outputFilename && v.size <= r.outputSize && 0 < Distance(r, v)
    ensures var (task, w) := Nearer(r, v, temp);
            StepView(r, v, temp, task, w) && Distance(r, w) == Distance(r, v) - 1 && w.size <= r.outputSize
  {
  }

  lemma DistanceGoal(r: Request, tags: Tags)
    requires Proper(tags)
    ensures Usable(tags)
    ensures Goal(r, tags) ==> Distance(r, ViewOf(tags)) == 0
    ensures ViewOf(tags).size <= r.outputSize && Distance(r, ViewOf(tags)) == 0 ==> Goal(r, tags)
  {
    hide Assoc, Goal;
    ProperUsable(tags);
    GoalView(r, tags);
  }

  /** A run can be continued to the goal in as many steps as it is away from it. */
  lemma {:induction false} FinishRun(r: Request, start: Tags, run: Run, names: seq<string>) returns (plan: Run)
    requires IsRun(r, start, run) && Proper(run.states[|run.tasks|]) && r.outputFilename !in names
    requires ViewOf(run.states[|run.tasks|]).size <= r.outputSize && run.temps <= names
    requires |run.tasks| + Distance(r, ViewOf(run.states[|run.tasks|])) <= |names|
    ensures IsRun(r, start, plan) && plan.temps <= names && Goal(r, plan.states[|plan.tasks|])
    ensures |plan.tasks| == |run.tasks| + Distance(r, ViewOf(run.states[|run.tasks|]))
    decreases Distance(r, ViewOf(run.states[|run.tasks|]))
  {
    hide Goal, Proper, Step, StepView, ViewOf, Distance, Nearer, Usable;
    var n := |run.tasks|;
    var tags := run.states[n];
    DistanceGoal(r, tags);
    var v := ViewOf(tags);
    if Distance(r, v) == 0 {
      plan := run;
    } else {
      var temp := names[n];
      var (task, w) := Nearer(r, v, temp);
      NearerIs(r, v, temp);
      var out := StepReal(r, tags, temp, task, w);
      ExtendRun(r, start, run, temp, task, out);
      plan := FinishRun(r, start, Extend(run, temp, task, out), names);
    }
  }

  /** From every template, whatever its format, compression and file name, for every output at
      least its size, and whatever other names are made up for temporary files, the goal can be
      reached: in one step for each thing that no earlier step can do along with it, and never
      in more than three. */
  lemma PlanExists(r: Request, template: string, size: int, format: Option<string>, compressed: bool,
                   names: seq<string>) returns (plan: Run)
    requires size <= r.outputSize && |names| == 3 && r.outputFilename !in names
    ensures IsRun(r, Start(template, size, format, compressed), plan) && plan.temps <= names
    ensures Goal(r, plan.states[|plan.tasks|])
    ensures |plan.tasks| == StepsNeeded(r, template, size, format, compressed) <= 3
  {
    hide Goal, Proper, Start, ViewOf;
    var start := Start(template, size, format, compressed);
    StartProper(template, size, format, compressed);
    plan := FinishRun(r, start, Run([start], [], []), names);
  }

  /** Without compression one step converts or resizes into the output, and another is needed to
      grow by less than the headroom, and another when the output is the template's own file. With
      it, a plain file of the right format can be unpacked straight into the output; otherwise it
      takes two steps, and three to grow by less than the headroom. */
  function StepsNeeded(r: Request, template: string, size: int, format: Option<string>, compressed: bool): nat {
    var grow := size < r.outputSize < size + 256 * 1024 * 1024;
    if !compressed then 1 + (if grow then 1 else 0) + (if template == r.outputFilename then 1 else 0)
    else if template != r.outputFilename && !r.outputIsBlockDev && format == Some(r.outputFormat) then
      if size == r.outputSize then 1 else 2
    else if grow then 3 else 2
  }

  /** No run reaches the goal in fewer steps. */
  lemma {:induction false} NoShorterPlan(r: Request, template: string, size: int, format: Option<string>,
                                         compressed: bool, run: Run, k: nat)
    requires IsRun(r, Start(template, size, format, compressed), run) && k < |run.states|
    requires size <= r.outputSize && r.outputFilename !in run.temps
    ensures Proper(run.states[k]) && ViewOf(run.states[k]).size <= r.outputSize
    ensures StepsNeeded(r, template, size, format, compressed) <= k + Distance(r, ViewOf(run.states[k]))
    ensures Goal(r, run.states[k]) ==> StepsNeeded(r, template, size, format, compressed) <= k
    decreases k
  {
    hide Step, StepView, Proper, ViewOf, Start, Goal, Distance;
    if k == 0 {
      StartProper(template, size, format, compressed);
      StartDistance(r, template, size, format, compressed);
    } else {
      NoShorterPlan(r, template, size, format, compressed, run, k - 1);
      StepOnViews(r, run.states[k - 1], run.temps[k - 1], run.tasks[k - 1], run.states[k]);
      ProperUsable(run.states[k]);
      DistanceStep(r, ViewOf(run.states[k - 1]), run.temps[k - 1], run.tasks[k - 1], ViewOf(run.states[k]));
    }
    DistanceGoal(r, run.states[k]);
  }

  lemma StartDistance(r: Request, template: string, size: int, format: Option<string>, compressed: bool)
    requires size <= r.outputSize
    ensures Distance(r, View(true, compressed, template, size, format))
            == StepsNeeded(r, template, size, format, compressed)
  {
  }

  /** Appends a copy: to the temporary name, or to the output when the input is elsewhere. */
  lemma AppendCopy(r: Request, start: Tags, run: Run, temp: string, name: string) returns (t: Run)
    requires IsRun(r, start, run) && Proper(run.states[|run.tasks|])
    requires var file := ViewOf(run.states[|run.tasks|]).file;
             name == temp || (name == r.outputFilename && file != r.outputFilename)
    ensures IsRun(r, start, t) && |t.tasks| == |run.tasks| + 1 && t.temps == run.temps + [temp]
    ensures t.states[..|run.states|] == run.states && t.tasks == run.tasks + [Copy]
    ensures var w := t.states[|t.tasks|];
            Proper(w) && ViewOf(w) == ViewOf(run.states[|run.tasks|]).(template := false, file := name)
  {
    hide Proper, Assoc, Remove, Count;
    var tags := run.states[|run.tasks|];
    ProperUsable(tags);
    var plain := Remove(tags, TemplateKey);
    RemoveFacts(tags);
    PushFile(name, plain);
    ExtendRun(r, start, run, temp, Copy, [Filename(name)] + plain);
    t := Extend(run, temp, Copy, [Filename(name)] + plain);
  }

  /** Nothing but copies to the temporary names, up to the j-th. */
  lemma {:induction false} CopyRun(r: Request, template: string, size: int, format: Option<string>,
                                   compressed: bool, names: seq<string>, j: nat) returns (run: Run)
    requires j <= |names|
    ensures IsRun(r, Start(template, size, format, compressed), run)
    ensures |run.tasks| == j && run.temps == names[..j] && Proper(run.states[j])
    ensures forall m | 0 <= m < j :: run.tasks[m] == Copy
    ensures ViewOf(run.states[j])
            == View(j == 0, compressed, if j == 0 then template else names[j - 1], size, format)
  {
    hide Start, Proper, Step;
    var start := Start(template, size, format, compressed);
    if j == 0 {
      StartProper(template, size, format, compressed);
      run := Run([start], [], []);
    } else {
      run := CopyRun(r, template, size, format, compressed, names, j - 1);
      run := AppendCopy(r, start, run, names[j - 1], names[j - 1]);
    }
  }

  /** Appends a move of the file to a temporary name. */
  lemma AppendMove(r: Request, start: Tags, run: Run, temp: string) returns (t: Run)
    requires IsRun(r, start, run) && Proper(run.states[|run.tasks|])
    requires !ViewOf(run.states[|run.tasks|]).template
    ensures IsRun(r, start, t) && |t.tasks| == |run.tasks| + 1 && t.temps == run.temps + [temp]
    ensures t.tasks[|run.tasks|] == Move && t.states[|run.tasks|] == run.states[|run.tasks|]
    ensures Usable(t.states[|run.tasks|])
  {
    hide Proper, Assoc, Remove, Count;
    var tags := run.states[|run.tasks|];
    ProperUsable(tags);
    ExtendRun(r, start, run, temp, Move, [Filename(temp)] + tags);
    t := Extend(run, temp, Move, [Filename(temp)] + tags);
  }

  /** When one of those names is the template's, a legal run changes its file in place. */
  lemma TemplateFileTouched(r: Request, template: string, size: int, format: Option<string>, compressed: bool,
                            names: seq<string>) returns (run: Run, k: nat)
    requires 3 <= |names| && !OtherNames(r, template, names)
    ensures IsRun(r, Start(template, size, format, compressed), run) && run.temps <= names
    ensures k < |run.tasks| && InPlace(run.tasks[k]) && Usable(run.states[k]) && Infile(run.states[k]) == template
  {
    hide Start, Proper, Step, ViewOf;
    var start := Start(template, size, format, compressed);
    if template in names[..|names| - 1] {
      var i: nat :| i < |names| - 1 && names[i] == template;
      k := i + 1;
      run := CopyRun(r, template, size, format, compressed, names, k);
    } else {
      assert names[0] in names[..|names| - 1];
      k := 2;
      run := CopyRun(r, template, size, format, compressed, names, 1);
      run := AppendCopy(r, start, run, names[1], r.outputFilename);
    }
    FileInView(run.states[k]);
    run := AppendMove(r, start, run, names[k]);
  }

  lemma FileInView(tags: Tags)
    requires Proper(tags)
    ensures Usable(tags) && ViewOf(tags).file == Infile(tags)
  {
  }

  /** With the template's own name as output, a run that reaches the goal can resize that file in
      place: by way of a copy, when the size grows by less than the headroom and the format is
      the one wanted. */
  lemma TemplateResized(r: Request, template: string, size: int, names: seq<string>) returns (run: Run)
    requires r.outputFilename == template && size < r.outputSize < size + HEADROOM
    requires 3 <= |names| && names[0] != template
    ensures IsRun(r, Start(template, size, Some(r.outputFormat), false), run) && run.temps <= names
    ensures run.tasks == [Copy, Copy, DiskResize] && Infile(run.states[2]) == template
    ensures Goal(r, run.states[3])
  {
    hide Goal, Proper, Assoc, Remove, Count, Start;
    var start := Start(template, size, Some(r.outputFormat), false);
    run := CopyRun(r, template, size, Some(r.outputFormat), false, names, 1);
    run := AppendCopy(r, start, run, names[1], r.outputFilename);
    var tags := run.states[2];
    ProperUsable(tags);
    var last: Tags := [Size(r.outputSize)] + tags;
    ExtendRun(r, start, run, names[2], DiskResize, last);
    run := Extend(run, names[2], DiskResize, last);
    PushSize(r.outputSize, tags);
    ProperUsable(last);
    GoalView(r, last);
  }

  /** What still has to be done: unpack, settle the format, resize. */
  function Missing(r: Request, v: View): nat {
    (if v.xz then 1 else 0) + (if v.format == None then 1 else 0) + (if v.size < r.outputSize then 1 else 0)
  }

  /** Three steps are needed for a compressed template of unknown format that has to grow by
      less than the headroom: no shorter run reaches the goal. */
  lemma {:induction false} ThreeStepsNeeded(r: Request, template: string, size: int, run: Run, k: nat)
    requires IsRun(r, Start(template, size, None, true), run) && k < |run.states|
    requires size < r.outputSize < size + HEADROOM
    ensures Proper(run.states[k])
    ensures 3 <= k + Missing(r, ViewOf(run.states[k])) && size <= ViewOf(run.states[k]).size
    ensures Goal(r, run.states[k]) ==> 3 <= k
    decreases k
  {
    hide Step, Proper, ViewOf, Start, Goal;
    if k == 0 {
      StartProper(template, size, None, true);
    } else {
      ThreeStepsNeeded(r, template, size, run, k - 1);
      StepOnViews(r, run.states[k - 1], run.temps[k - 1], run.tasks[k - 1], run.states[k]);
    }
    ProperUsable(run.states[k]);
    GoalView(r, run.states[k]);
  }
}
