/** `generate_target_dir_contents` for one combination of variables: the
    layering of the variables, the generation steps, and the copy of the
    remaining source files with the copy-or-link rule of
    `copy_file_to_dir`.

    The file system and the template engine are reduced to the actions the
    function takes, in order: render a template with a variable map, or
    place a source file into the target directory. */
module GeneratePlan {
  import opened Wrappers
  import opened Expansion

  /** Files of at least this many bytes are linked rather than copied. */
  const LargeFileThreshold: nat := 500_000_000

  /** The three outcomes of `copy_file_to_dir`. */
  datatype Placement = LinkLarge | LinkDirectory | CopyFile

  /** `copy_file_to_dir`: a large file is linked when linking large files
      is enabled; otherwise a directory is linked and anything else copied.
      The size test comes first, so a large directory counts as large. */
  function CopyDecision(size: nat, isDir: bool, symlinkLarge: bool): (r: Placement)
    ensures r == CopyFile <==> !isDir && !(symlinkLarge && size >= LargeFileThreshold)
    ensures r == LinkLarge <==> symlinkLarge && size >= LargeFileThreshold
    ensures r == LinkDirectory <==> isDir && !(symlinkLarge && size >= LargeFileThreshold)
  {
    if symlinkLarge && size >= LargeFileThreshold then LinkLarge
    else if isDir then LinkDirectory
    else CopyFile
  }

  /** A file linked for its size stays linked when it grows, and a file
      copied stays copied when it shrinks. */
  lemma CopyDecisionMonotone(small: nat, large: nat, isDir: bool, symlinkLarge: bool)
    requires small <= large
    ensures CopyDecision(small, isDir, symlinkLarge) == LinkLarge ==> CopyDecision(large, isDir, symlinkLarge) == LinkLarge
    ensures CopyDecision(large, isDir, symlinkLarge) == CopyFile ==> CopyDecision(small, isDir, symlinkLarge) == CopyFile
  {
  }

  /** `dict(base)` followed by `.update(over)`: the keys of both, with the
      values of `over` where it has them. */
  function Layer(base: Vars, over: Vars): (r: Vars)
    ensures r.Keys == base.Keys + over.Keys
    ensures forall k | k in over :: r[k] == over[k]
    ensures forall k | k in base && k !in over :: r[k] == base[k]
  {
    base + over
  }

  /** One entry of a step's `templates` list. */
  datatype Template = Template(input: string, output: string)

  /** One entry of the configuration's `steps` list. A missing `variables`
      or `templates` entry reads as empty, as `.get` with a default does. */
  datatype Step = Step(name: Option<string>, variables: Vars, templates: seq<Template>)

  /** The loaded configuration; a missing `variables` or `steps` entry reads
      as empty. */
  datatype Config = Config(variables: Vars, steps: seq<Step>)

  /** The first attempt that produced a configuration: the loop that tries
      one loader after the other, stopping at the first that does not
      raise. */
  function FirstLoaded(attempts: seq<Option<Config>>): (r: Option<Config>)
    ensures r.None? <==> forall k | 0 <= k < |attempts| :: attempts[k].None?
    ensures r.Some? ==> exists k | 0 <= k < |attempts| :: attempts[k] == r && forall j | 0 <= j < k :: attempts[j].None?
  {
    if |attempts| == 0 then None
    else if attempts[0].Some? then attempts[0]
    else
      var rest := FirstLoaded(attempts[1..]);
      assert forall k | 1 <= k < |attempts| :: attempts[k] == attempts[1..][k - 1];
      rest
  }

  /** Where the configuration comes from, with what parsing the file as
      JSON and as YAML yields (`None` when the parser raises): a file given
      on the command line, or the two default files of the template
      directory. */
  datatype ConfigSource =
    | UserFile(asJson: Option<Config>, asYaml: Option<Config>)
    | DefaultFiles(json: Option<Config>, yaml: Option<Config>)

  /** `load_config_file`, with the user file tried as JSON and then as
      YAML, as its comment and error message say (see the findings: the
      code as written tries JSON twice). `None` is the error exit. */
  function LoadConfig(source: ConfigSource): (r: Option<Config>)
    ensures r.None? <==> match source
      case UserFile(j, y) => j.None? && y.None?
      case DefaultFiles(j, y) => j.None? && y.None?
    ensures source.UserFile? && source.asJson.Some? ==> r == source.asJson
    ensures source.UserFile? && source.asJson.None? ==> r == source.asYaml
    ensures source.DefaultFiles? && source.json.Some? ==> r == source.json
    ensures source.DefaultFiles? && source.json.None? ==> r == source.yaml
  {
    match source
    case UserFile(j, y) => var a := [j, y]; assert a[0] == j && a[1] == y; FirstLoaded(a)
    case DefaultFiles(j, y) => var a := [j, y]; assert a[0] == j && a[1] == y; FirstLoaded(a)
  }

  /** An entry of the source directory listing. */
  datatype SourceFile = SourceFile(name: string, size: nat, isDir: bool)

  /** What the function does, in order. A rendering records the template,
      the output file-name template and the variables it is filled with. */
  datatype Action =
    | Render(input: string, output: string, vars: Vars)
    | Place(file: string, how: Placement)

  /** The actions taken, and the 1-based number of the step without a
      `name` when the run stops there with a `RuntimeError`. */
  datatype Outcome = Outcome(actions: seq<Action>, unnamedStep: Option<nat>)

  /** The variables of every directory: the input variables, overridden by
      the configuration's. */
  function GlobalVars(input: Vars, config: Config): Vars {
    Layer(input, config.variables)
  }

  /** The variables of one step: the directory's, overridden by the
      step's. */
  function StepVars(input: Vars, config: Config, step: Step): Vars {
    Layer(GlobalVars(input, config), step.variables)
  }

  /** Precedence of the variables: a step variable wins over a
      configuration variable, which wins over an input variable (a
      `--set` value or a `--foreach` value). */
  lemma VariablePrecedence(input: Vars, config: Config, step: Step, key: string)
    ensures key in StepVars(input, config, step) <==> key in input || key in config.variables || key in step.variables
    ensures key in step.variables ==> StepVars(input, config, step)[key] == step.variables[key]
    ensures key !in step.variables && key in config.variables ==> StepVars(input, config, step)[key] == config.variables[key]
    ensures key !in step.variables && key !in config.variables && key in input ==> StepVars(input, config, step)[key] == input[key]
  {
  }

  /** The renderings of one step's templates, in order. */
  function TemplateRenders(templates: seq<Template>, vars: Vars): (r: seq<Action>)
    ensures |r| == |templates|
    ensures forall k | 0 <= k < |r| :: r[k] == Render(templates[k].input, templates[k].output, vars)
  {
    if |templates| == 0 then []
    else TemplateRenders(templates[..|templates| - 1], vars) + [Render(templates[|templates| - 1].input, templates[|templates| - 1].output, vars)]
  }

  /** The renderings of a sequence of steps, in order. */
  function Renders(input: Vars, config: Config, steps: seq<Step>): seq<Action> {
    if |steps| == 0 then []
    else
      var last := steps[|steps| - 1];
      Renders(input, config, steps[..|steps| - 1]) + TemplateRenders(last.templates, StepVars(input, config, last))
  }

  /** The template inputs of a sequence of steps. */
  function TemplateInputs(steps: seq<Step>): set<string> {
    if |steps| == 0 then {}
    else TemplateInputs(steps[..|steps| - 1]) + InputsOf(steps[|steps| - 1].templates)
  }

  function InputsOf(templates: seq<Template>): set<string> {
    if |templates| == 0 then {}
    else InputsOf(templates[..|templates| - 1]) + {templates[|templates| - 1].input}
  }

  /** The placements of the listed files that are no template input, in
      listing order; large files are linked. */
  function Placements(files: seq<SourceFile>, inputs: set<string>): seq<Action> {
    if |files| == 0 then []
    else
      var f := files[|files| - 1];
      Placements(files[..|files| - 1], inputs) + (if f.name in inputs then [] else [Place(f.name, CopyDecision(f.size, f.isDir, true))])
  }

  /** Index of the first step without a name. */
  function FirstUnnamed(steps: seq<Step>): (r: Option<nat>)
    ensures r.None? <==> forall j | 0 <= j < |steps| :: steps[j].name.Some?
    ensures r.Some? ==> r.value < |steps| && steps[r.value].name.None?
    ensures r.Some? ==> forall j | 0 <= j < r.value :: steps[j].name.Some?
  {
    if |steps| == 0 then None
    else if steps[0].name.None? then Some(0)
    else
      var rest := FirstUnnamed(steps[1..]);
      assert forall j | 1 <= j < |steps| :: steps[j] == steps[1..][j - 1];
      match rest
      case None => None
      case Some(i) => Some(i + 1)
  }

  /** What `generate_target_dir_contents` does, stated declaratively: no
      steps, nothing done; a step without a name, the renderings of the
      steps before it and then the error; otherwise every step's renderings
      and then the placement of every listed file that is no template
      input. */
  function Planned(input: Vars, config: Config, files: seq<SourceFile>): Outcome {
    var steps := config.steps;
    if |steps| == 0 then Outcome([], None)
    else match FirstUnnamed(steps)
      case Some(i) => Outcome(Renders(input, config, steps[..i]), Some(i + 1))
      case None => Outcome(Renders(input, config, steps) + Placements(files, TemplateInputs(steps)), None)
  }

  /** `generate_target_dir_contents`, step by step: the steps in order, the
      templates of each in order, then the source listing in order. */
  method GenerateTargetDirContents(input: Vars, config: Config, files: seq<SourceFile>) returns (out: Outcome)
    ensures out == Planned(input, config, files)
  {
    var global := Layer(input, config.variables);
    var templateFiles: set<string> := {};
    var steps := config.steps;
    if |steps| == 0 {
      return Outcome([], None);
    }
    var actions: seq<Action> := [];
    for s := 0 to |steps|
      invariant forall j | 0 <= j < s :: steps[j].name.Some?
      invariant actions == Renders(input, config, steps[..s])
      invariant templateFiles == TemplateInputs(steps[..s])
    {
      var step := steps[s];
      StepsSnoc(input, config, steps, s);
      if step.name.None? {
        FirstUnnamedIs(steps, s);
        return Outcome(actions, Some(s + 1));
      }
      var vars := Layer(global, step.variables);
      var stepActions, stepInputs := RenderTemplates(step.templates, vars);
      actions := actions + stepActions;
      templateFiles := templateFiles + stepInputs;
    }
    assert steps[..|steps|] == steps;
    FirstUnnamedNone(steps);
    var placed := PlaceFiles(files, templateFiles);
    return Outcome(actions + placed, None);
  }

  /** The inner loop of one step: every template of the step rendered with
      the step's variables, in order, and its input recorded. */
  method RenderTemplates(templates: seq<Template>, vars: Vars) returns (acts: seq<Action>, inputs: set<string>)
    ensures acts == TemplateRenders(templates, vars)
    ensures inputs == InputsOf(templates)
  {
    acts := [];
    inputs := {};
    for t := 0 to |templates|
      invariant acts == TemplateRenders(templates[..t], vars)
      invariant inputs == InputsOf(templates[..t])
    {
      var tmpl := templates[t];
      assert templates[..t + 1][..t] == templates[..t];
      inputs := inputs + {tmpl.input};
      acts := acts + [Render(tmpl.input, tmpl.output, vars)];
    }
    assert templates[..|templates|] == templates;
  }

  /** The final loop over the source listing: every file that is no
      template input is placed, in listing order, with large files linked. */
  method PlaceFiles(files: seq<SourceFile>, inputs: set<string>) returns (acts: seq<Action>)
    ensures acts == Placements(files, inputs)
  {
    acts := [];
    for f := 0 to |files|
      invariant acts == Placements(files[..f], inputs)
    {
      var file := files[f];
      assert files[..f + 1][..f] == files[..f] && files[..f + 1][f] == file;
      if file.name in inputs {
        continue;
      }
      acts := acts + [Place(file.name, CopyDecision(file.size, file.isDir, true))];
    }
    assert files[..|files|] == files;
  }

  /** One more step of the loop: its renderings and template inputs are
      added to those of the steps before it. */
  lemma StepsSnoc(input: Vars, config: Config, steps: seq<Step>, s: nat)
    requires s < |steps|
    ensures Renders(input, config, steps[..s + 1]) ==
      Renders(input, config, steps[..s]) + TemplateRenders(steps[s].templates, StepVars(input, config, steps[s]))
    ensures TemplateInputs(steps[..s + 1]) == TemplateInputs(steps[..s]) + InputsOf(steps[s].templates)
  {
    assert steps[..s + 1][..s] == steps[..s];
  }

  lemma FirstUnnamedIs(steps: seq<Step>, s: nat)
    requires s < |steps| && steps[s].name.None?
    requires forall j | 0 <= j < s :: steps[j].name.Some?
    ensures FirstUnnamed(steps) == Some(s)
  {
    var r := FirstUnnamed(steps);
    assert r.Some?;
    assert r.value <= s;
  }

  lemma FirstUnnamedNone(steps: seq<Step>)
    requires forall j | 0 <= j < |steps| :: steps[j].name.Some?
    ensures FirstUnnamed(steps) == None
  {
  }

  /** No file that serves as a template input is placed into the target
      directory. */
  lemma {:induction false} PlacementsSkipInputs(files: seq<SourceFile>, inputs: set<string>)
    ensures forall a | a in Placements(files, inputs) :: a.Place? && a.file !in inputs
    decreases |files|
  {
    if |files| > 0 {
      PlacementsSkipInputs(files[..|files| - 1], inputs);
    }
  }

  /** Every listed file that is no template input is placed, as the copy
      rule with large-file linking decides. */
  lemma {:induction false} PlacementsCover(files: seq<SourceFile>, inputs: set<string>, k: nat)
    requires k < |files| && files[k].name !in inputs
    ensures Place(files[k].name, CopyDecision(files[k].size, files[k].isDir, true)) in Placements(files, inputs)
    decreases |files|
  {
    if k < |files| - 1 {
      PlacementsCover(files[..|files| - 1], inputs, k);
      assert files[..|files| - 1][k] == files[k];
    }
  }

  /** Without steps nothing is rendered and nothing is copied. */
  lemma NoStepsNothingDone(input: Vars, config: Config, files: seq<SourceFile>)
    requires |config.steps| == 0
    ensures Planned(input, config, files) == Outcome([], None)
  {
  }

  /** A step without a name stops the run after the steps before it were
      rendered: no file is placed. */
  lemma {:induction false} UnnamedStepStops(input: Vars, config: Config, files: seq<SourceFile>, i: nat)
    requires i < |config.steps| && config.steps[i].name.None?
    requires forall j | 0 <= j < i :: config.steps[j].name.Some?
    ensures Planned(input, config, files).unnamedStep == Some(i + 1)
    ensures forall a | a in Planned(input, config, files).actions :: a.Render?
  {
    FirstUnnamedIs(config.steps, i);
    RendersOnly(input, config, config.steps[..i]);
  }

  lemma {:induction false} RendersOnly(input: Vars, config: Config, steps: seq<Step>)
    ensures forall a | a in Renders(input, config, steps) :: a.Render?
    decreases |steps|
  {
    if |steps| > 0 {
      RendersOnly(input, config, steps[..|steps| - 1]);
    }
  }

  /** Every rendering of a step uses that step's layered variables. */
  lemma {:induction false} RendersUseStepVars(input: Vars, config: Config, steps: seq<Step>, a: Action)
    requires a in Renders(input, config, steps)
    ensures a.Render? && exists j | 0 <= j < |steps| :: a.vars == StepVars(input, config, steps[j])
    decreases |steps|
  {
    RendersOnly(input, config, steps);
    var init := steps[..|steps| - 1];
    var last := steps[|steps| - 1];
    if a in Renders(input, config, init) {
      RendersUseStepVars(input, config, init, a);
      ghost var j :| 0 <= j < |init| && a.vars == StepVars(input, config, init[j]);
      assert init[j] == steps[j];
    } else {
      var r := TemplateRenders(last.templates, StepVars(input, config, last));
      assert a in r;
      var k :| 0 <= k < |r| && r[k] == a;
      assert a.vars == StepVars(input, config, steps[|steps| - 1]);
    }
  }
}
