/**
 * Instruction filters: boolean tests over (enclosing method, instruction,
 * index of the instruction in the method), each carrying a gap budget
 * `maxInstructionsBefore` used by the fingerprint scanner.
 *
 * dexlib2's `Method`, `Instruction` and `Reference` interfaces become the
 * datatypes below; a deferred provider (`() -> T`) is modelled by the value
 * it yields when `matches` calls it.
 */
module InstructionFilters {
  import opened Wrappers

  /** Kotlin `Int`. */
  type Int32 = x: int | -0x8000_0000 <= x < 0x8000_0000

  /** Kotlin `Long`: the value of a wide literal. */
  type Long = x: int | -0x8000_0000_0000_0000 <= x < 0x8000_0000_0000_0000

  /** Maximum number of instructions allowed in a Java method; the default gap budget. */
  const METHOD_MAX_INSTRUCTIONS: Int32 := 65535

  /** An opcode of dexlib2's closed `Opcode` enumeration, identified by its ordinal. */
  type Opcode = nat

  datatype Reference =
    | MethodReference(definingClass: string, name: string, parameterTypes: seq<string>, returnType: string)
    | FieldReference(definingClass: string, name: string, fieldType: string)
      /** String, type and other references, which no filter here accepts. */
    | OtherReference

  /**
   * An instruction: its opcode, the reference it carries if it is a
   * `ReferenceInstruction`, and its value if it is a `WideLiteralInstruction`.
   */
  datatype Instruction = Instruction(opcode: Opcode, reference: Option<Reference>, wideLiteral: Option<Long>)

  /** The enclosing method: the two of its properties a filter reads, its defining class and its instructions. */
  datatype Method = Method(definingClass: string, instructions: seq<Instruction>)

  /**
   * `parametersStartsWith(actual, expected)`, whose body is not part of this
   * model: it is passed to `Matches` as a relation.
   */
  type ParametersRelation = (seq<string>, seq<string>) -> bool

  /** The filter variants; a parameter left out takes the source's default. */
  datatype InstructionFilter =
    | OpcodeFilter(opcode: Opcode, maxInstructionsBefore: Int32 := METHOD_MAX_INSTRUCTIONS)
      /** `None` matches any opcode. */
    | OpcodesFilter(opcodes: Option<set<Opcode>>, maxInstructionsBefore: Int32 := METHOD_MAX_INSTRUCTIONS)
    | LiteralFilter(
        literal: Long,
        opcodes: Option<set<Opcode>> := None,
        maxInstructionsBefore: Int32 := METHOD_MAX_INSTRUCTIONS)
    | MethodFilter(
        definingClass: Option<string> := None,
        methodName: Option<string> := None,
        parameters: Option<seq<string>> := None,
        returnType: Option<string> := None,
        opcodes: Option<set<Opcode>> := None,
        maxInstructionsBefore: Int32 := METHOD_MAX_INSTRUCTIONS)
    | FieldFilter(
        definingClass: Option<string> := None,
        name: Option<string> := None,
        fieldType: Option<string> := None,
        opcodes: Option<set<Opcode>> := None,
        maxInstructionsBefore: Int32 := METHOD_MAX_INSTRUCTIONS)
    | LastInstructionFilter(filter: InstructionFilter, maxInstructionsBefore: Int32 := METHOD_MAX_INSTRUCTIONS)
      /**
       * Logical or: matches when one of `filters` matches. This is the corrected
       * behaviour; `AnyFilterAsWritten` models the source's self-recursive call.
       */
    | AnyFilter(filters: seq<InstructionFilter>, maxInstructionsBefore: Int32 := METHOD_MAX_INSTRUCTIONS)

  /** Kotlin's `String.endsWith`. */
  predicate EndsWith(s: string, suffix: string) {
    |suffix| <= |s| && s[|s| - |suffix|..] == suffix
  }

  /** Kotlin's `String.startsWith`. */
  predicate StartsWith(s: string, prefix: string) {
    prefix <= s
  }

  /** `OpcodesFilter.matches`, the first check of every filter derived from it. */
  predicate OpcodesMatch(opcodes: Option<set<Opcode>>, instruction: Instruction) {
    if opcodes.None? then true else instruction.opcode in opcodes.value
  }

  /**
   * The defining-class test of `MethodFilter` and `FieldFilter`: a suffix
   * match, falling back to the `"this"` sentinel for the enclosing class.
   */
  predicate DefiningClassPasses(referenceClass: string, definingClass: string, enclosing: Method) {
    if !EndsWith(referenceClass, definingClass) then
      !(definingClass != "this" || referenceClass != enclosing.definingClass)
    else
      true
  }

  /** `matches` of every filter variant, dispatched on the variant. */
  predicate Matches(
    parametersStartsWith: ParametersRelation,
    filter: InstructionFilter, enclosing: Method, instruction: Instruction, methodIndex: Int32)
  {
    match filter
    case OpcodeFilter(opcode, _) =>
      instruction.opcode == opcode
    case OpcodesFilter(opcodes, _) =>
      OpcodesMatch(opcodes, instruction)
    case LiteralFilter(literal, opcodes, _) =>
      if !OpcodesMatch(opcodes, instruction) then false
      else instruction.wideLiteral == Some(literal)
    case MethodFilter(definingClass, methodName, parameters, returnType, opcodes, _) =>
      if !OpcodesMatch(opcodes, instruction) then false
      else if instruction.reference.None? || !instruction.reference.value.MethodReference? then false
      else
        var reference := instruction.reference.value;
        if definingClass.Some? && !DefiningClassPasses(reference.definingClass, definingClass.value, enclosing) then false
        else if methodName.Some? && reference.name != methodName.value then false
        else if returnType.Some? && !StartsWith(reference.returnType, returnType.value) then false
        else if parameters.Some? && !parametersStartsWith(reference.parameterTypes, parameters.value) then false
        else true
    case FieldFilter(definingClass, name, fieldType, opcodes, _) =>
      if !OpcodesMatch(opcodes, instruction) then false
      else if instruction.reference.None? || !instruction.reference.value.FieldReference? then false
      else
        var reference := instruction.reference.value;
        if definingClass.Some? && !DefiningClassPasses(reference.definingClass, definingClass.value, enclosing) then false
        else if name.Some? && reference.name != name.value then false
        else if fieldType.Some? && !StartsWith(reference.fieldType, fieldType.value) then false
        else true
    case LastInstructionFilter(inner, _) =>
      methodIndex == |enclosing.instructions| - 1 && Matches(parametersStartsWith, inner, enclosing, instruction, methodIndex)
    case AnyFilter(filters, _) =>
      exists i :: 0 <= i < |filters| && Matches(parametersStartsWith, filters[i], enclosing, instruction, methodIndex)
  }

  /** An absent criterion holds; a present one must satisfy `test`. */
  predicate Criterion<T>(criterion: Option<T>, test: T -> bool) {
    criterion.None? || test(criterion.value)
  }

  // ---------------------------------------------------------------------------
  // Gap budgets and `OpcodeFilter.listOfOpcodes`
  // ---------------------------------------------------------------------------

  /** Every variant built without an explicit gap budget gets `METHOD_MAX_INSTRUCTIONS`. */
  lemma DefaultGapBudget(opcode: Opcode, literal: Long, inner: InstructionFilter, filters: seq<InstructionFilter>)
    ensures OpcodeFilter(opcode).maxInstructionsBefore == 65535
    ensures OpcodesFilter(None).maxInstructionsBefore == 65535
    ensures LiteralFilter(literal).maxInstructionsBefore == 65535
    ensures MethodFilter().maxInstructionsBefore == 65535
    ensures FieldFilter().maxInstructionsBefore == 65535
    ensures LastInstructionFilter(inner).maxInstructionsBefore == 65535
    ensures AnyFilter(filters).maxInstructionsBefore == 65535
  {
  }

  /** The filter `listOfOpcodes` builds for one entry: `null` matches anything. */
  function OpcodeEntry(opcode: Option<Opcode>, maxInstructionsBefore: Int32): InstructionFilter {
    match opcode
    case None => OpcodesFilter(None, maxInstructionsBefore)
    case Some(op) => OpcodeFilter(op, maxInstructionsBefore)
  }

  /**
   * `OpcodeFilter.listOfOpcodes`: one filter per entry; the first may match
   * anywhere, every later one must follow its predecessor immediately.
   */
  method ListOfOpcodes(opcodes: seq<Option<Opcode>>) returns (list: seq<InstructionFilter>)
    ensures |list| == |opcodes|
    ensures forall i :: 0 <= i < |list| ==>
      list[i].maxInstructionsBefore == if i == 0 then METHOD_MAX_INSTRUCTIONS else 0
    ensures forall i :: 0 <= i < |list| ==> list[i] == OpcodeEntry(opcodes[i], list[i].maxInstructionsBefore)
  {
    list := [];
    var instructionsBefore := METHOD_MAX_INSTRUCTIONS;
    for i := 0 to |opcodes|
      invariant |list| == i
      invariant instructionsBefore == if i == 0 then METHOD_MAX_INSTRUCTIONS else 0
      invariant forall k :: 0 <= k < i ==>
        list[k] == OpcodeEntry(opcodes[k], if k == 0 then METHOD_MAX_INSTRUCTIONS else 0)
    {
      list := list + [OpcodeEntry(opcodes[i], instructionsBefore)];
      instructionsBefore := 0;
    }
  }

  /** An entry of `listOfOpcodes` matches exactly its opcode, or anything for `null`. */
  lemma OpcodeEntryMatches(
    parametersStartsWith: ParametersRelation,
    opcode: Option<Opcode>, budget: Int32, enclosing: Method, instruction: Instruction, methodIndex: Int32)
    ensures Matches(parametersStartsWith, OpcodeEntry(opcode, budget), enclosing, instruction, methodIndex)
        <==> opcode.None? || opcode.value == instruction.opcode
  {
  }

  // ---------------------------------------------------------------------------
  // Opcode, opcode-set and literal filters
  // ---------------------------------------------------------------------------

  /** `OpcodeFilter` compares opcodes only; the method and the index play no part. */
  lemma OpcodeFilterMatches(
    parametersStartsWith: ParametersRelation, opcode: Opcode, budget: Int32,
    enclosing: Method, instruction: Instruction, methodIndex: Int32,
    otherEnclosing: Method, otherIndex: Int32)
    ensures Matches(parametersStartsWith, OpcodeFilter(opcode, budget), enclosing, instruction, methodIndex)
        <==> instruction.opcode == opcode
    ensures Matches(parametersStartsWith, OpcodeFilter(opcode, budget), enclosing, instruction, methodIndex)
        == Matches(parametersStartsWith, OpcodeFilter(opcode, budget), otherEnclosing, instruction, otherIndex)
  {
  }

  /** A `null` opcode set accepts every instruction; otherwise membership decides. */
  lemma OpcodesFilterMatches(
    parametersStartsWith: ParametersRelation, opcodes: Option<set<Opcode>>, budget: Int32,
    enclosing: Method, instruction: Instruction, methodIndex: Int32)
    ensures opcodes.None? ==>
      Matches(parametersStartsWith, OpcodesFilter(opcodes, budget), enclosing, instruction, methodIndex)
    ensures opcodes.Some? ==>
      (Matches(parametersStartsWith, OpcodesFilter(opcodes, budget), enclosing, instruction, methodIndex)
       <==> instruction.opcode in opcodes.value)
  {
  }

  /**
   * `LiteralFilter` matches iff the opcode check passes and the instruction is
   * a wide literal with the given value; a non-literal instruction never matches.
   */
  lemma LiteralFilterMatches(
    parametersStartsWith: ParametersRelation, literal: Long, opcodes: Option<set<Opcode>>, budget: Int32,
    enclosing: Method, instruction: Instruction, methodIndex: Int32)
    ensures Matches(parametersStartsWith, LiteralFilter(literal, opcodes, budget), enclosing, instruction, methodIndex)
        <==> OpcodesMatch(opcodes, instruction) && instruction.wideLiteral.Some?
             && instruction.wideLiteral.value == literal
    ensures instruction.wideLiteral.None? ==>
      !Matches(parametersStartsWith, LiteralFilter(literal, opcodes, budget), enclosing, instruction, methodIndex)
  {
  }

  // ---------------------------------------------------------------------------
  // Method and field filters
  // ---------------------------------------------------------------------------

  /**
   * The defining-class criterion holds iff the reference class ends with the
   * given string, or the string is `"this"` and the reference class is the
   * enclosing method's class.
   */
  lemma DefiningClassCriterion(referenceClass: string, definingClass: string, enclosing: Method)
    ensures DefiningClassPasses(referenceClass, definingClass, enclosing)
        <==> EndsWith(referenceClass, definingClass)
             || (definingClass == "this" && referenceClass == enclosing.definingClass)
  {
  }

  /**
   * For a reference class written as a type descriptor (ending in `;`), the
   * `"this"` sentinel never matches as a suffix, so it accepts exactly the
   * enclosing method's own class.
   */
  lemma ThisSentinelIsExact(referenceClass: string, enclosing: Method)
    requires |referenceClass| > 0 && referenceClass[|referenceClass| - 1] == ';'
    ensures DefiningClassPasses(referenceClass, "this", enclosing) <==> referenceClass == enclosing.definingClass
  {
  }

  /**
   * `MethodFilter` matches iff the opcode check passes, the instruction
   * references a method and every present criterion holds: defining class by
   * suffix or `"this"`, exact name, return type by prefix, and parameters by
   * `parametersStartsWith`.
   */
  lemma MethodFilterMatches(
    parametersStartsWith: ParametersRelation,
    definingClass: Option<string>, methodName: Option<string>, parameters: Option<seq<string>>,
    returnType: Option<string>, opcodes: Option<set<Opcode>>, budget: Int32,
    enclosing: Method, instruction: Instruction, methodIndex: Int32)
    ensures Matches(parametersStartsWith,
                    MethodFilter(definingClass, methodName, parameters, returnType, opcodes, budget),
                    enclosing, instruction, methodIndex)
        <==> && OpcodesMatch(opcodes, instruction)
             && instruction.reference.Some? && instruction.reference.value.MethodReference?
             && var reference := instruction.reference.value;
             && Criterion(definingClass, (c: string) =>
                  EndsWith(reference.definingClass, c) || (c == "this" && reference.definingClass == enclosing.definingClass))
             && Criterion(methodName, (n: string) => reference.name == n)
             && Criterion(returnType, (t: string) => t <= reference.returnType)
             && Criterion(parameters, (ps: seq<string>) => parametersStartsWith(reference.parameterTypes, ps))
  {
  }

  /** With no criterion given, every method-reference instruction passing the opcode check matches. */
  lemma MethodFilterWithoutCriteria(
    parametersStartsWith: ParametersRelation, opcodes: Option<set<Opcode>>, budget: Int32,
    enclosing: Method, instruction: Instruction, methodIndex: Int32)
    ensures Matches(parametersStartsWith, MethodFilter(None, None, None, None, opcodes, budget),
                    enclosing, instruction, methodIndex)
        <==> OpcodesMatch(opcodes, instruction)
             && instruction.reference.Some? && instruction.reference.value.MethodReference?
  {
  }

  /** `weaker` keeps some of `stronger`'s criteria and drops the others. */
  predicate DropsCriteria<T(==)>(weaker: Option<T>, stronger: Option<T>) {
    weaker.None? || weaker == stronger
  }

  /** Dropping criteria from a `MethodFilter` can only let more instructions match. */
  lemma MethodFilterCriteriaNarrow(
    parametersStartsWith: ParametersRelation, stronger: InstructionFilter, weaker: InstructionFilter,
    enclosing: Method, instruction: Instruction, methodIndex: Int32)
    requires stronger.MethodFilter? && weaker.MethodFilter? && weaker.opcodes == stronger.opcodes
    requires DropsCriteria(weaker.definingClass, stronger.definingClass)
    requires DropsCriteria(weaker.methodName, stronger.methodName)
    requires DropsCriteria(weaker.parameters, stronger.parameters)
    requires DropsCriteria(weaker.returnType, stronger.returnType)
    ensures Matches(parametersStartsWith, stronger, enclosing, instruction, methodIndex)
        ==> Matches(parametersStartsWith, weaker, enclosing, instruction, methodIndex)
  {
  }

  /**
   * `FieldFilter` matches iff the opcode check passes, the instruction
   * references a field and every present criterion holds: defining class by
   * suffix or `"this"`, exact name, field type by prefix.
   */
  lemma FieldFilterMatches(
    parametersStartsWith: ParametersRelation,
    definingClass: Option<string>, name: Option<string>, fieldType: Option<string>,
    opcodes: Option<set<Opcode>>, budget: Int32,
    enclosing: Method, instruction: Instruction, methodIndex: Int32)
    ensures Matches(parametersStartsWith, FieldFilter(definingClass, name, fieldType, opcodes, budget),
                    enclosing, instruction, methodIndex)
        <==> && OpcodesMatch(opcodes, instruction)
             && instruction.reference.Some? && instruction.reference.value.FieldReference?
             && var reference := instruction.reference.value;
             && Criterion(definingClass, (c: string) =>
                  EndsWith(reference.definingClass, c) || (c == "this" && reference.definingClass == enclosing.definingClass))
             && Criterion(name, (n: string) => reference.name == n)
             && Criterion(fieldType, (t: string) => t <= reference.fieldType)
  {
  }

  /** Dropping criteria from a `FieldFilter` can only let more instructions match. */
  lemma FieldFilterCriteriaNarrow(
    parametersStartsWith: ParametersRelation, stronger: InstructionFilter, weaker: InstructionFilter,
    enclosing: Method, instruction: Instruction, methodIndex: Int32)
    requires stronger.FieldFilter? && weaker.FieldFilter? && weaker.opcodes == stronger.opcodes
    requires DropsCriteria(weaker.definingClass, stronger.definingClass)
    requires DropsCriteria(weaker.name, stronger.name)
    requires DropsCriteria(weaker.fieldType, stronger.fieldType)
    ensures Matches(parametersStartsWith, stronger, enclosing, instruction, methodIndex)
        ==> Matches(parametersStartsWith, weaker, enclosing, instruction, methodIndex)
  {
  }

  /**
   * With `definingClass = "this"` and no other criterion, a method or field
   * filter accepts a reference whose class is a type descriptor (ending in
   * `;`) exactly when that class is the enclosing method's own class.
   */
  lemma ThisFilterMatchesOwnClass(
    parametersStartsWith: ParametersRelation, filter: InstructionFilter,
    enclosing: Method, instruction: Instruction, methodIndex: Int32)
    requires filter == MethodFilter(Some("this")) || filter == FieldFilter(Some("this"))
    requires instruction.reference.Some? && !instruction.reference.value.OtherReference?
    requires filter.MethodFilter? <==> instruction.reference.value.MethodReference?
    requires var c := instruction.reference.value.definingClass; |c| > 0 && c[|c| - 1] == ';'
    ensures Matches(parametersStartsWith, filter, enclosing, instruction, methodIndex)
        <==> instruction.reference.value.definingClass == enclosing.definingClass
  {
    ThisSentinelIsExact(instruction.reference.value.definingClass, enclosing);
  }

  // ---------------------------------------------------------------------------
  // Opcode checks shared by the derived filters
  // ---------------------------------------------------------------------------

  /** The filters that extend `OpcodesFilter` and carry an opcode set. */
  predicate HasOpcodeSet(filter: InstructionFilter) {
    filter.OpcodesFilter? || filter.LiteralFilter? || filter.MethodFilter? || filter.FieldFilter?
  }

  /**
   * Literal, method and field filters call `OpcodesFilter.matches` first: none
   * of them matches an instruction its opcode set rejects.
   */
  lemma DerivedFiltersCheckOpcodesFirst(
    parametersStartsWith: ParametersRelation, filter: InstructionFilter,
    enclosing: Method, instruction: Instruction, methodIndex: Int32)
    requires HasOpcodeSet(filter)
    ensures Matches(parametersStartsWith, filter, enclosing, instruction, methodIndex)
        ==> Matches(parametersStartsWith, OpcodesFilter(filter.opcodes, filter.maxInstructionsBefore),
                    enclosing, instruction, methodIndex)
  {
  }

  /** `OpcodeFilter(op)` matches exactly like an `OpcodesFilter` of the one-element set `{op}`. */
  lemma OpcodeFilterIsSingletonSet(
    parametersStartsWith: ParametersRelation, opcode: Opcode, budget: Int32,
    enclosing: Method, instruction: Instruction, methodIndex: Int32)
    ensures Matches(parametersStartsWith, OpcodeFilter(opcode, budget), enclosing, instruction, methodIndex)
        == Matches(parametersStartsWith, OpcodesFilter(Some({opcode}), budget), enclosing, instruction, methodIndex)
  {
  }

  /** `wider` accepts every opcode `narrower` accepts; `None` accepts all. */
  predicate WidensOpcodes(wider: Option<set<Opcode>>, narrower: Option<set<Opcode>>) {
    wider.None? || (narrower.Some? && narrower.value <= wider.value)
  }

  /**
   * Widening the opcode set of any filter that carries one (a larger set, or
   * `null`) only adds matches, and with the other criteria unchanged no
   * instruction outside the narrower set is lost.
   */
  lemma WiderOpcodeSetMatchesMore(
    parametersStartsWith: ParametersRelation, filter: InstructionFilter, wider: Option<set<Opcode>>,
    enclosing: Method, instruction: Instruction, methodIndex: Int32)
    requires HasOpcodeSet(filter) && WidensOpcodes(wider, filter.opcodes)
    ensures Matches(parametersStartsWith, filter, enclosing, instruction, methodIndex)
        ==> Matches(parametersStartsWith, filter.(opcodes := wider), enclosing, instruction, methodIndex)
  {
  }

  // ---------------------------------------------------------------------------
  // Last-instruction wrapper
  // ---------------------------------------------------------------------------

  /**
   * `LastInstructionFilter` matches iff the index is the method's last one and
   * the wrapped filter matches; so at most one index of a method can match.
   */
  lemma LastInstructionFilterMatches(
    parametersStartsWith: ParametersRelation, inner: InstructionFilter, budget: Int32,
    enclosing: Method, instruction: Instruction, methodIndex: Int32, otherIndex: Int32)
    ensures Matches(parametersStartsWith, LastInstructionFilter(inner, budget), enclosing, instruction, methodIndex)
        <==> methodIndex == |enclosing.instructions| - 1
             && Matches(parametersStartsWith, inner, enclosing, instruction, methodIndex)
    ensures Matches(parametersStartsWith, LastInstructionFilter(inner, budget), enclosing, instruction, methodIndex)
         && Matches(parametersStartsWith, LastInstructionFilter(inner, budget), enclosing, instruction, otherIndex)
        ==> methodIndex == otherIndex
  {
  }

  // ---------------------------------------------------------------------------
  // `AnyFilter`
  // ---------------------------------------------------------------------------

  /**
   * `AnyFilter.matches` as written: the lambda given to `filters.any` ignores
   * its element and calls `matches` of the `AnyFilter` itself with the same
   * arguments, so every element re-enters the same call. `frames` is the
   * number of nested calls the thread's stack still holds; `None` is the
   * `StackOverflowError` raised when it runs out.
   */
  function AnyFilterAsWritten(filters: seq<InstructionFilter>, frames: nat): Option<bool>
    decreases frames
  {
    if filters == [] then Some(false)
    else if frames == 0 then None
    else
      // the first element's call already decides: the same call answers for every element
      AnyFilterAsWritten(filters, frames - 1)
  }

  /** As written, an `AnyFilter` wrapping at least one filter never answers, however deep the stack. */
  lemma {:induction false} AnyFilterNeverAnswers(filters: seq<InstructionFilter>, frames: nat)
    ensures AnyFilterAsWritten(filters, frames).Some? <==> filters == []
    ensures filters == [] ==> AnyFilterAsWritten(filters, frames) == Some(false)
  {
    if filters != [] && frames > 0 {
      AnyFilterNeverAnswers(filters, frames - 1);
    }
  }

  /**
   * The corrected `AnyFilter` matches iff one of its filters matches: it never
   * matches with no filters, matches like its only filter, and adding filters
   * only adds matches.
   */
  lemma AnyFilterMatches(
    parametersStartsWith: ParametersRelation, filters: seq<InstructionFilter>, more: seq<InstructionFilter>,
    budget: Int32, enclosing: Method, instruction: Instruction, methodIndex: Int32)
    ensures !Matches(parametersStartsWith, AnyFilter([], budget), enclosing, instruction, methodIndex)
    ensures |filters| == 1 ==>
      (Matches(parametersStartsWith, AnyFilter(filters, budget), enclosing, instruction, methodIndex)
       <==> Matches(parametersStartsWith, filters[0], enclosing, instruction, methodIndex))
    ensures Matches(parametersStartsWith, AnyFilter(filters + more, budget), enclosing, instruction, methodIndex)
      <==> Matches(parametersStartsWith, AnyFilter(filters, budget), enclosing, instruction, methodIndex)
           || Matches(parametersStartsWith, AnyFilter(more, budget), enclosing, instruction, methodIndex)
  {
    var all := filters + more;
    if Matches(parametersStartsWith, AnyFilter(all, budget), enclosing, instruction, methodIndex) {
      var i :| 0 <= i < |all| && Matches(parametersStartsWith, all[i], enclosing, instruction, methodIndex);
      if i >= |filters| {
        assert all[i] == more[i - |filters|];
      }
    }
    if Matches(parametersStartsWith, AnyFilter(more, budget), enclosing, instruction, methodIndex) {
      var i :| 0 <= i < |more| && Matches(parametersStartsWith, more[i], enclosing, instruction, methodIndex);
      assert all[|filters| + i] == more[i];
    }
    if Matches(parametersStartsWith, AnyFilter(filters, budget), enclosing, instruction, methodIndex) {
      var i :| 0 <= i < |filters| && Matches(parametersStartsWith, filters[i], enclosing, instruction, methodIndex);
      assert all[i] == filters[i];
    }
  }

  /** The corrected `AnyFilter` and the as-written one agree exactly where the latter answers: on no filters. */
  lemma AnyFilterCorrectedAgreesWhenAnswered(
    parametersStartsWith: ParametersRelation, filters: seq<InstructionFilter>, frames: nat,
    budget: Int32, enclosing: Method, instruction: Instruction, methodIndex: Int32)
    requires AnyFilterAsWritten(filters, frames).Some?
    ensures AnyFilterAsWritten(filters, frames)
      == Some(Matches(parametersStartsWith, AnyFilter(filters, budget), enclosing, instruction, methodIndex))
  {
    AnyFilterNeverAnswers(filters, frames);
  }
}
