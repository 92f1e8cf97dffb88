/**
 * The error value raised when one segment of a dotted property path (such as
 * `address.city`) cannot be found on a type. It records the segment's name, the
 * type that was searched and the path elements resolved before the failure; it
 * renders a diagnostic message and compares how far two failed resolutions got.
 *
 * The type information (`T`) and the property-path elements (`P`) belong to
 * other parts of the mapping subsystem. Their only behaviour used here is the
 * type's simple name and a path element's `toString()`, which the operations
 * take as the function parameters `simpleName` and `render`.
 */
module PropertyReference {
  import opened Wrappers
  import opened JavaText

  /** The message template; each `%s` takes one argument of `String.format`. */
  const ErrorTemplate: string := "No property %s found for type %s!"

  /** The text `getMessage` appends before the rendered first path element. */
  const TraversedPathPrefix: string := " Traversed path: "

  /** The exception's three final fields. */
  datatype PropertyReferenceException<T, P> = PropertyReferenceException(
    propertyName: string,
    typeInformation: T,
    alreadyResolvedPath: seq<P>)

  /** Why construction was refused: the two `IllegalArgumentException`s of Spring's `Assert`. */
  datatype ContractViolation = PropertyNameWithoutText | TypeIsNull

  /** What every constructed exception satisfies: the property name has text. */
  predicate Valid<T, P>(e: PropertyReferenceException<T, P>) {
    HasText(Some(e.propertyName))
  }

  /**
   * The constructor. `Assert.hasText(propertyName)` runs first and
   * `Assert.notNull(type)` second, so a call violating both reports the name.
   * `None` stands for a Java `null` argument.
   */
  function Create<T, P>(propertyName: Option<string>, typeInformation: Option<T>, alreadyResolvedPath: seq<P>)
    : (r: Result<PropertyReferenceException<T, P>, ContractViolation>)
    ensures r.Success? <==> HasText(propertyName) && typeInformation.Some?
    ensures !HasText(propertyName) ==> r == Failure(PropertyNameWithoutText)
    ensures HasText(propertyName) && typeInformation.None? ==> r == Failure(TypeIsNull)
    ensures r.Success? ==> Valid(r.value) && r.value.alreadyResolvedPath == alreadyResolvedPath
    ensures r.Success? ==> Some(r.value.propertyName) == propertyName && Some(r.value.typeInformation) == typeInformation
  {
    if !HasText(propertyName) then Failure(PropertyNameWithoutText)
    else if typeInformation.None? then Failure(TypeIsNull)
    else Success(PropertyReferenceException(propertyName.value, typeInformation.value, alreadyResolvedPath))
  }

  /** `getPropertyName`: never null, empty or blank. */
  function GetPropertyName<T, P>(e: PropertyReferenceException<T, P>): (name: string)
    requires Valid(e)
    ensures |name| > 0
    ensures exists i :: 0 <= i < |name| && !IsWhitespace(name[i])
  {
    HasTextMeansNonBlank(Some(e.propertyName));
    e.propertyName
  }

  /** `getType`. */
  function GetType<T, P>(e: PropertyReferenceException<T, P>): T {
    e.typeInformation
  }

  /** The accessors give back exactly what the constructor was passed. */
  lemma AccessorsReturnConstructorArguments<T, P>(
    propertyName: Option<string>, typeInformation: Option<T>, alreadyResolvedPath: seq<P>)
    requires Create(propertyName, typeInformation, alreadyResolvedPath).Success?
    ensures var e := Create(propertyName, typeInformation, alreadyResolvedPath).value;
      && propertyName == Some(GetPropertyName(e))
      && typeInformation == Some(GetType(e))
      && e.alreadyResolvedPath == alreadyResolvedPath
  {
  }

  /** The template cut at its two conversions. */
  lemma ErrorTemplatePieces()
    ensures ErrorTemplate == "No property " + ("%s" + (" found for type " + ("%s" + "!")))
  {
  }

  /** `String.format(ERROR_TEMPLATE, propertyName, simpleName)`. */
  function TemplateMessage(propertyName: string, typeName: string): (m: string)
    ensures Format(ErrorTemplate, [propertyName, typeName]) == Some(m)
  {
    FormatErrorTemplate(propertyName, typeName);
    "No property " + propertyName + " found for type " + typeName + "!"
  }

  /** Filling in the template, from its last conversion back to its start. */
  lemma FormatErrorTemplate(propertyName: string, typeName: string)
    ensures Format(ErrorTemplate, [propertyName, typeName])
      == Some("No property " + propertyName + " found for type " + typeName + "!")
  {
    FormatTemplatePieces(propertyName, typeName);
    ErrorTemplatePieces();
  }

  /** The template, written as its pieces. */
  lemma FormatTemplatePieces(propertyName: string, typeName: string)
    ensures Format("No property " + ("%s" + (" found for type " + ("%s" + "!"))), [propertyName, typeName])
      == Some("No property " + propertyName + " found for type " + typeName + "!")
  {
    FormatTemplateTail(propertyName, typeName);
    FormatAfterLiteral("No property ", "%s" + (" found for type " + ("%s" + "!")), [propertyName, typeName]);
    assert "No property " + (propertyName + " found for type " + typeName + "!")
      == "No property " + propertyName + " found for type " + typeName + "!";
  }

  /** The template after its opening literal. */
  lemma FormatTemplateTail(propertyName: string, typeName: string)
    ensures Format("%s" + (" found for type " + ("%s" + "!")), [propertyName, typeName])
      == Some(propertyName + " found for type " + typeName + "!")
  {
    FormatTemplateLastPart(typeName);
    FormatAfterSpecifier(propertyName, " found for type " + ("%s" + "!"), [typeName]);
    assert [propertyName] + [typeName] == [propertyName, typeName];
    assert propertyName + (" found for type " + typeName + "!") == propertyName + " found for type " + typeName + "!";
  }

  /** The template after its first conversion. */
  lemma FormatTemplateLastPart(typeName: string)
    ensures Format(" found for type " + ("%s" + "!"), [typeName]) == Some(" found for type " + typeName + "!")
  {
    FormatAfterSpecifier(typeName, "!", []);
    assert [typeName] + [] == [typeName];
    FormatAfterLiteral(" found for type ", "%s" + "!", [typeName]);
    assert " found for type " + (typeName + "!") == " found for type " + typeName + "!";
  }

  /** The suffix `getMessage` appends: only the first resolved element is rendered. */
  function TraversedPathSuffix<P>(alreadyResolvedPath: seq<P>, render: P -> string): string {
    if |alreadyResolvedPath| == 0 then ""
    else TraversedPathPrefix + render(alreadyResolvedPath[0]) + "."
  }

  /** `getMessage`: the formatted template, then the traversed path when there is one. */
  function Message<T, P>(e: PropertyReferenceException<T, P>, simpleName: T -> string, render: P -> string)
    : (m: string)
    ensures Format(ErrorTemplate, [e.propertyName, simpleName(e.typeInformation)]).Some?
    ensures Format(ErrorTemplate, [e.propertyName, simpleName(e.typeInformation)]).value <= m
  {
    TemplateMessage(e.propertyName, simpleName(e.typeInformation)) + TraversedPathSuffix(e.alreadyResolvedPath, render)
  }

  /** Without a resolved path the message is exactly the filled-in template. */
  lemma MessageWithoutResolvedPath<T, P>(e: PropertyReferenceException<T, P>, simpleName: T -> string, render: P -> string)
    requires |e.alreadyResolvedPath| == 0
    ensures Message(e, simpleName, render)
      == "No property " + e.propertyName + " found for type " + simpleName(e.typeInformation) + "!"
  {
  }

  /** With a resolved path the message names its FIRST element, never the last. */
  lemma MessageWithResolvedPath<T, P>(e: PropertyReferenceException<T, P>, simpleName: T -> string, render: P -> string)
    requires |e.alreadyResolvedPath| > 0
    ensures Message(e, simpleName, render)
      == "No property " + e.propertyName + " found for type " + simpleName(e.typeInformation) + "!"
         + " Traversed path: " + render(e.alreadyResolvedPath[0]) + "."
  {
  }

  /** The message ends in `!` exactly when nothing was resolved, and in `.` otherwise. */
  lemma MessageEnding<T, P>(e: PropertyReferenceException<T, P>, simpleName: T -> string, render: P -> string)
    ensures var m := Message(e, simpleName, render);
      |m| > 0 && (m[|m| - 1] == '!' <==> |e.alreadyResolvedPath| == 0)
  {
  }

  /** The message is longer than the template exactly when something was resolved. */
  lemma MessageHasSuffixIffResolved<T, P>(e: PropertyReferenceException<T, P>, simpleName: T -> string, render: P -> string)
    ensures |Message(e, simpleName, render)| > |TemplateMessage(e.propertyName, simpleName(e.typeInformation))|
      <==> |e.alreadyResolvedPath| > 0
  {
  }

  /** Elements after the first never show in the message. */
  lemma MessageIgnoresLaterElements<T, P>(
    e: PropertyReferenceException<T, P>, later: seq<P>, simpleName: T -> string, render: P -> string)
    requires |e.alreadyResolvedPath| > 0
    ensures Message(e.(alreadyResolvedPath := e.alreadyResolvedPath[..1] + later), simpleName, render)
      == Message(e, simpleName, render)
  {
  }

  /** `getBaseProperty`: the last resolved element, `null` when there is none. */
  function BaseProperty<T, P>(e: PropertyReferenceException<T, P>): (base: Option<P>)
    ensures base.None? <==> |e.alreadyResolvedPath| == 0
    ensures base.Some? ==> base.value == e.alreadyResolvedPath[|e.alreadyResolvedPath| - 1]
  {
    if |e.alreadyResolvedPath| == 0 then None
    else Some(e.alreadyResolvedPath[|e.alreadyResolvedPath| - 1])
  }

  /** The element resolved last becomes the base property. */
  lemma BasePropertyOfExtendedPath<T, P>(e: PropertyReferenceException<T, P>, p: P)
    ensures BaseProperty(e.(alreadyResolvedPath := e.alreadyResolvedPath + [p])) == Some(p)
  {
  }

  /** The base property and the traversed path in the message name the same
      element only when exactly one element was resolved. */
  lemma BasePropertyIsFirstOnlyForSingleStep<T, P>(e: PropertyReferenceException<T, P>)
    requires |e.alreadyResolvedPath| > 0
    requires forall i, j :: 0 <= i < j < |e.alreadyResolvedPath| ==> e.alreadyResolvedPath[i] != e.alreadyResolvedPath[j]
    ensures BaseProperty(e) == Some(e.alreadyResolvedPath[0]) <==> |e.alreadyResolvedPath| == 1
  {
  }

  /**
   * `hasDeeperResolutionDepthThan`: whether THIS exception resolved more path
   * elements than `other`. The Javadoc above the method describes the opposite
   * question (whether the given exception is deeper); the code compares
   * `this` against the argument, and that is what is modelled.
   */
  function HasDeeperResolutionDepthThan<T, P>(e: PropertyReferenceException<T, P>, other: PropertyReferenceException<T, P>)
    : (deeper: bool)
    ensures deeper <==> |other.alreadyResolvedPath| < |e.alreadyResolvedPath|
  {
    |e.alreadyResolvedPath| > |other.alreadyResolvedPath|
  }

  /** No exception is deeper than itself. */
  lemma DeeperIsIrreflexive<T, P>(e: PropertyReferenceException<T, P>)
    ensures !HasDeeperResolutionDepthThan(e, e)
  {
  }

  /** Two exceptions are never each deeper than the other. */
  lemma DeeperIsAsymmetric<T, P>(a: PropertyReferenceException<T, P>, b: PropertyReferenceException<T, P>)
    ensures HasDeeperResolutionDepthThan(a, b) ==> !HasDeeperResolutionDepthThan(b, a)
  {
  }

  /** Depth comparisons chain. */
  lemma DeeperIsTransitive<T, P>(
    a: PropertyReferenceException<T, P>, b: PropertyReferenceException<T, P>, c: PropertyReferenceException<T, P>)
    ensures HasDeeperResolutionDepthThan(a, b) && HasDeeperResolutionDepthThan(b, c) ==> HasDeeperResolutionDepthThan(a, c)
  {
  }

  /** Exactly one of: `a` is deeper, `b` is deeper, or both resolved equally far (a tie is not deeper). */
  lemma DeeperTrichotomy<T, P>(a: PropertyReferenceException<T, P>, b: PropertyReferenceException<T, P>)
    ensures HasDeeperResolutionDepthThan(a, b) || HasDeeperResolutionDepthThan(b, a)
      || |a.alreadyResolvedPath| == |b.alreadyResolvedPath|
    ensures |a.alreadyResolvedPath| == |b.alreadyResolvedPath|
      ==> !HasDeeperResolutionDepthThan(a, b) && !HasDeeperResolutionDepthThan(b, a)
  {
  }

  /** Resolving one more element makes a failure deeper than before. */
  lemma ExtendedPathIsDeeper<T, P>(e: PropertyReferenceException<T, P>, p: P)
    ensures HasDeeperResolutionDepthThan(e.(alreadyResolvedPath := e.alreadyResolvedPath + [p]), e)
  {
  }
}
