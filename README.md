# PropertyReferenceException, modelled in Dafny

Spring Data's mapping layer throws `PropertyReferenceException` when one segment of a
dotted property path (such as `address.city`) cannot be found on a type. The exception
holds three final fields: the name of the missing property, the type that was searched,
and the list of `PropertyPath`s resolved before the failure. It offers accessors for the
name and the type. `getMessage` renders a diagnostic. `getBaseProperty` returns the
deepest resolved path. `hasDeeperResolutionDepthThan` tells which of two failed
resolutions got further.

The model has three modules:

- `Wrappers` (`wrappers.dfy`): `Option`, standing for a possibly-`null` Java value, and
  `Result`, standing for a call that may throw.
- `JavaText` (`java_text.dfy`): the platform pieces the exception relies on.
  `Character.isWhitespace`, Spring's `StringUtils.hasText` (behind `Assert.hasText`),
  and the `%s` conversion of `String.format`.
  - `IsWhitespace` is a table of the characters Java treats as whitespace.
  - `hasText`'s character scan (`ContainsText`) is proved equal to "some character is
    not whitespace".
  - `Format` is one recursive definition. Two lemmas describe it: literal template text
    is copied through, and each `%s` takes the next argument.
- `PropertyReference` (`property_reference_exception.dfy`): the exception as an
  immutable datatype `PropertyReferenceException<T, P>`.
  - `T` stands for `TypeInformation<?>` and `P` for `PropertyPath`.
  - The two collaborator calls the source makes are function parameters of the
    operations: `type.getType().getSimpleName()` is `simpleName: T -> string` and
    `PropertyPath.toString()` is `render: P -> string`.
  - The constructor is `Create`. It returns `Failure(PropertyNameWithoutText)` or
    `Failure(TypeIsNull)` where `Assert` would throw `IllegalArgumentException`, and it
    checks in the source's order: the name first, then the type.

All three fields are `final` and only read after construction. A Dafny datatype value
cannot be updated in place, so "no method changes a field" holds by construction. It
also follows that every operation gives the same answer on every call.

The Javadoc of `hasDeeperResolutionDepthThan` (PropertyReferenceException.java:99-100)
says the method reports whether the *given* exception is deeper than the current one.
The code at line 106 returns true when *this* exception is deeper. The model follows
the code, and the function's comment records the difference.

## Model

| member | source | states |
|---|---|---|
| `JavaText.ContainsTextIffNonWhitespaceAt` | src/main/java/org/springframework/data/mapping/PropertyReferenceException.java:46 | the character scan behind `hasText` succeeds exactly when some position holds a non-whitespace character |
| `JavaText.HasTextMeansNonBlank` | src/main/java/org/springframework/data/mapping/PropertyReferenceException.java:46 | a name passes `Assert.hasText` iff it is non-null and has a non-whitespace character |
| `JavaText.Format` | src/main/java/org/springframework/data/mapping/PropertyReferenceException.java:79-80 | `String.format` with `%s` only: a template without `%` is returned unchanged |
| `JavaText.FormatAfterLiteral` | src/main/java/org/springframework/data/mapping/PropertyReferenceException.java:79-80 | literal template text is copied in front of the formatted rest |
| `JavaText.FormatAfterSpecifier` | src/main/java/org/springframework/data/mapping/PropertyReferenceException.java:79-80 | a `%s` is replaced by the next argument |
| `PropertyReference.Create` | src/main/java/org/springframework/data/mapping/PropertyReferenceException.java:44-52 | construction succeeds iff the name has text and the type is non-null; a name without text is reported before a null type; on success the three arguments are stored as given |
| `PropertyReference.GetPropertyName` | src/main/java/org/springframework/data/mapping/PropertyReferenceException.java:54-61 | the returned name is never empty and has a non-whitespace character |
| `PropertyReference.AccessorsReturnConstructorArguments` | src/main/java/org/springframework/data/mapping/PropertyReferenceException.java:44-70 | `getPropertyName` and `getType` return exactly the constructor's arguments, and the resolved path is the one passed in |
| `PropertyReference.ErrorTemplatePieces` | src/main/java/org/springframework/data/mapping/PropertyReferenceException.java:31 | the template is the two literals and the closing `!` around two `%s` conversions |
| `PropertyReference.FormatErrorTemplate` | src/main/java/org/springframework/data/mapping/PropertyReferenceException.java:79-80 | formatting the template with name and simple name gives `No property <name> found for type <simple name>!` |
| `PropertyReference.TemplateMessage` | src/main/java/org/springframework/data/mapping/PropertyReferenceException.java:79-80 | the message's first sentence is exactly what `String.format(ERROR_TEMPLATE, ...)` produces |
| `PropertyReference.Message` | src/main/java/org/springframework/data/mapping/PropertyReferenceException.java:76-87 | `getMessage` always begins with the formatted template |
| `PropertyReference.MessageWithoutResolvedPath` | src/main/java/org/springframework/data/mapping/PropertyReferenceException.java:79-86 | with nothing resolved, the message is exactly `No property <name> found for type <simple name>!` |
| `PropertyReference.MessageWithResolvedPath` | src/main/java/org/springframework/data/mapping/PropertyReferenceException.java:82-84 | otherwise the message is that sentence, then ` Traversed path: `, the rendering of the FIRST resolved element, and `.` |
| `PropertyReference.MessageEnding` | src/main/java/org/springframework/data/mapping/PropertyReferenceException.java:79-86 | the message ends in `!` iff the resolved path is empty |
| `PropertyReference.MessageHasSuffixIffResolved` | src/main/java/org/springframework/data/mapping/PropertyReferenceException.java:82-84 | the traversed-path sentence is appended iff the resolved path is non-empty |
| `PropertyReference.MessageIgnoresLaterElements` | src/main/java/org/springframework/data/mapping/PropertyReferenceException.java:83 | replacing every resolved element after the first leaves the message unchanged |
| `PropertyReference.BaseProperty` | src/main/java/org/springframework/data/mapping/PropertyReferenceException.java:94-96 | `getBaseProperty` is absent iff nothing was resolved, and otherwise is the LAST resolved element |
| `PropertyReference.BasePropertyOfExtendedPath` | src/main/java/org/springframework/data/mapping/PropertyReferenceException.java:95 | the element resolved last is the base property |
| `PropertyReference.BasePropertyIsFirstOnlyForSingleStep` | src/main/java/org/springframework/data/mapping/PropertyReferenceException.java:83-95 | for distinct resolved elements, the base property is the element the message names iff exactly one element was resolved |
| `PropertyReference.HasDeeperResolutionDepthThan` | src/main/java/org/springframework/data/mapping/PropertyReferenceException.java:105-107 | true iff this exception resolved strictly more elements than the other one |
| `PropertyReference.DeeperIsIrreflexive` | src/main/java/org/springframework/data/mapping/PropertyReferenceException.java:106 | no exception is deeper than itself |
| `PropertyReference.DeeperIsAsymmetric` | src/main/java/org/springframework/data/mapping/PropertyReferenceException.java:106 | two exceptions are never each deeper than the other |
| `PropertyReference.DeeperIsTransitive` | src/main/java/org/springframework/data/mapping/PropertyReferenceException.java:106 | depth comparisons chain |
| `PropertyReference.DeeperTrichotomy` | src/main/java/org/springframework/data/mapping/PropertyReferenceException.java:106 | one exception is deeper or the depths are equal, and equal depths make neither deeper |
| `PropertyReference.ExtendedPathIsDeeper` | src/main/java/org/springframework/data/mapping/PropertyReferenceException.java:106 | resolving one more element makes a failure deeper than before |

## Left out

- `RuntimeException` and `Throwable` machinery (stack traces, causes, `serialVersionUID`): Java plumbing with no behaviour of this class. The constructor's failures are a `Result` instead of a thrown `IllegalArgumentException`. `ContractViolation` names which assertion failed. It does not carry Spring's assertion message texts, which live in `Assert`, and `Assert` is not part of this model.
- `TypeInformation.getType().getSimpleName()`: a reflective call into another part of the framework. It is the parameter `simpleName`.
- `PropertyPath.toString()`: `PropertyPath` is not part of this model. Its rendering is the parameter `render`, and nothing is assumed about it.
- `String.format` in general: only `%s` applied to non-null strings is modelled. Other conversions (`%d`, `%%`, `%n`, ...) make `Format` return `None`. The template uses none of them.
- `Character.isWhitespace`: the table follows current JDKs. Older JDKs also counted U+180E (Mongolian vowel separator) as whitespace.
- Java `char` is a UTF-16 code unit; the model's `char` is a Unicode scalar value. Surrogate pairs are not modelled.
- A `null` list for the resolved path is not checked by the constructor. It would make `getMessage`, `getBaseProperty` and `hasDeeperResolutionDepthThan` throw `NullPointerException`. The model has no null sequence.
- Aliasing of the caller's list: the constructor stores the reference without copying it (line 51). A caller could later mutate the list and change what the exception reports. The model stores an immutable `seq`, i.e. a snapshot at construction time.
- PropertyReference.BaseProperty: the element type `P` has no `null`, although a Java list may hold `null` elements. In the source, a `null` last element makes `getBaseProperty` return `null` for a non-empty list (line 95). A `null` first element makes `getMessage` throw `NullPointerException` at `get(0).toString()` (line 83). The model shows neither: `BaseProperty` is `None` only for an empty path, and `Message` always succeeds.
- A `null` argument to `hasDeeperResolutionDepthThan`: it would throw `NullPointerException`. The model has no null exception value.
- `PropertyReference.GetType` has no contract of its own. What it returns is stated by `AccessorsReturnConstructorArguments`.
