# Diagnostic helpers of the InversifyJS resolver, in Dafny

This project models `src/utils/serialization.ts` of InversifyJS. That file holds the helpers the resolver uses to explain a failed resolution:

- **identifier display.** `getServiceIdentifierAsString` renders a string key, a symbol or a constructor.
- **function names.** `getFunctionName` returns the `name` property. When that is empty, it falls back to the pattern `/^function\s*([^\s(]+)/` over the function's source text.
- **binding listing.** `listRegisteredBindingsForServiceIdentifier` builds the "Registered bindings:" text.
- **cycle detection.** `alreadyDependencyChain`, `dependencyChainToString` and `circularDependencyToException` find the first request in the plan, in pre-order, whose service identifier already appears among its strict ancestors. That request's root-to-node chain becomes the error message.
- **target metadata.** `listMetadataForTarget` renders the named tag and custom tags of an injection point.

Files:

- `strings.dfy` (module `Strings`) holds `Array.prototype.join` and `Array.prototype.reverse`. It also holds a split on one separator character, which serves as the inverse when stating that a listing has exactly the lines it was built from.
- `serialization.dfy` (module `Serialization`) is the model.
- `scenarios.dfy` (module `Scenarios`) holds worked instances.

How the model is encoded:

- **Identifiers.** `ServiceId` is `Str(key)`, `Sym(id, text)` or `Ctor(f)`, where a function is `Func(id, name, text)`. `id` stands for object identity. Dafny's `==` on `ServiceId` therefore plays the part of JavaScript's `===` at `src/utils/serialization.ts:54`:
  - strings compare by contents;
  - symbols and functions compare by identity;
  - two constructors that share a name but not an identity are different identifiers.

  The model assumes that an `id` determines the rest of its record: one symbol has one `text`, and one function has one `name` and one `text`. Records that share an `id` but differ elsewhere compare unequal under `==`, but no JavaScript object can produce them.
- **The plan.** The source uses one mutable object with both `parentRequest` and `childRequests`. The model splits it into two value views:
  - `Request` is the upward view, an identifier plus an optional parent.
  - `PlanNode` is the downward view, an identifier plus ordered children.

  The traversal builds each child's `Request` from the parent it came from. This reflects the resolver's guarantee that parent and child links agree.
- **Errors.** The thrown exception becomes the `Outcome` result `Fail(message)`. Returning normally is `Pass`.
- **Stateful code.** The three loops of the source are methods with loop invariants, each proved equal to a specification function:
  - the `forEach` over bindings;
  - the `forEach` over custom tags;
  - the `forEach` over child requests with its early throw.

  The tail-recursive `_createStringArr` with its accumulator stays a function, and so do the other pure helpers.

## Model

| member | source | states |
|---|---|---|
| `Serialization.GetServiceIdentifierAsString` | src/utils/serialization.ts:4-12 | A constructor renders as its `name`, a symbol as its `toString()` text, a string key as itself. It is total, so it never fails. |
| `Serialization.MatchFunctionNameMeaning` | src/utils/serialization.ts:114-115 | About `MatchFunctionName`, the `exec` call. The computed match is the regular expression's meaning. Whenever the text starts with "function", then zero or more whitespace characters, then a maximal non-empty run of characters that are neither whitespace nor `(`, that run is the capture. A reported capture always has such a decomposition, so the capture is unique. |
| `Serialization.GetFunctionNameCases` | src/utils/serialization.ts:109-117 | About `GetFunctionName`. A non-empty `name` is returned as is. Otherwise the result is the pattern's capture over the source text. Failing that, it is `"Anonymous function: "` followed by the text, and this happens only when no decomposition exists. |
| `Serialization.ListRegisteredBindingsForServiceIdentifier` | src/utils/serialization.ts:14-46 | The loop's result equals the listing of `getBindings(container, serviceIdentifier)`. That listing is `""` exactly when there are no bindings. Otherwise it is a newline, "Registered bindings:", and one newline-separated line per binding in lookup order. Each line is `" " + name`, with `"Object"` as the name when there is no implementation type. `" - " + metaData` is added exactly when the metadata is truthy. |
| `Serialization.RegisteredBindingsListLines` | src/utils/serialization.ts:22-42 | Split at newlines, a non-empty listing reads back as an empty line, the header, and exactly the binding lines, one per binding, in order. This holds when no binding's display name (the `getFunctionName` result, or `"Object"`) and no metadata text holds a newline. |
| `Serialization.AlreadyDependencyChainMeaning` | src/utils/serialization.ts:48-59 | About `AlreadyDependencyChain`. The parent walk returns true exactly when the identifier is among the strict ancestors' identifiers. The request's own identifier is never compared, and a root gives false. |
| `Serialization.CreateStringArrPath` | src/utils/serialization.ts:62-69 | About `CreateStringArr`, the source's `_createStringArr`. Pushing on the way up gives `result` followed by the reverse of the root-to-request display strings. |
| `Serialization.DependencyChainToString` | src/utils/serialization.ts:61-73 | The chain is the display strings of the path from the root down to the request, root first, joined by `" --> "`. |
| `Serialization.PathShape` | src/utils/serialization.ts:61-73 | A request at depth k has a path of exactly k + 1 identifiers. The first is the root's and the last is the request's own. |
| `Serialization.CircularDependencyToException` | src/utils/serialization.ts:75-84 | The loop with its early throw and its recursion returns exactly the outcome of visiting all strict descendants in pre-order, children left to right, and throwing at the first request whose identifier recurs among its ancestors. The message is the prefix, a space and that request's chain. |
| `Serialization.FirstCircularMeaning` | src/utils/serialization.ts:76-83 | The ordered visit passes exactly when no visited request is circular. When it fails, it names a circular request, every earlier one is non-circular, and the message is built from that request. |
| `Serialization.CircularDependencyMeaning` | src/utils/serialization.ts:75-84 | Cycle detection returns normally exactly when the tree below is acyclic, meaning no child anywhere repeats an identifier of its strict ancestors. Otherwise it throws. The message is the prefix, a space, and the root-first `" --> "` chain of the first circular request in pre-order. |
| `Serialization.ListMetadataForTarget` | src/utils/serialization.ts:86-107 | The loop's result equals the metadata listing. It is `" " + id` exactly when the target is neither tagged nor named. Otherwise it is `" " + id + "\n " + id + " - "` followed by the named tag, if any, and then each custom tag in stored order, each followed by a newline. |
| `Serialization.MetadataForTargetLines` | src/utils/serialization.ts:88-103 | Split at newlines, a tagged or named target's listing has four parts: the identifier line; the identifier with `" - "` and the first tag text; each further tag text exactly once, in order; and a final empty piece. If there are no tags, it is the identifier line and the identifier with `" - "`. This holds when neither the identifier nor any tag text holds a newline. |
| `Scenarios.AcyclicChainPasses` | src/utils/serialization.ts:75-84 | The plan A → B → C passes. |
| `Scenarios.RepeatedIdentifierRequests` | src/utils/serialization.ts:75-84 | The plan A → B → A visits B under the root, then A under B, in that order. |
| `Scenarios.RepeatedIdentifierChain` | src/utils/serialization.ts:61-73 | The second request for A prints the chain `"A --> B --> A"`. |
| `Scenarios.RepeatedIdentifierFails` | src/utils/serialization.ts:75-84 | The plan A → B → A throws with the prefix followed by `" A --> B --> A"`. |
| `Scenarios.SameNameIsNotSameIdentifier` | src/utils/serialization.ts:54 | A constructor requested inside a different constructor with the same name is not a cycle. |
| `Scenarios.TwoBindingsListing` | src/utils/serialization.ts:26-41 | A named binding with metadata, then a constant-value binding, list as `"\nRegistered bindings:\n <name> - <metaData>\n Object"`. |
| `Scenarios.NamedTargetListing` | src/utils/serialization.ts:93-103 | A target named "throwable" lists as `" Weapon\n Weapon - throwable\n"`. |
| `Scenarios.FunctionKeywordName` | src/utils/serialization.ts:113-115 | An unnamed `function Katana() {}` is named "Katana" by the pattern. |
| `Scenarios.ArrowFunctionName` | src/utils/serialization.ts:113-115 | An unnamed `() => 1` falls back to `"Anonymous function: () => 1"`. |

## Left out

- `Function.prototype.toString()`, `Symbol.prototype.toString()` and `Tag.toString()` are runtime behaviour. Their outputs are inputs to the model: `Func.text`, `Sym.text` and the tag strings.
- `binding.constraint.metaData` is appended only when it is truthy (`src/utils/serialization.ts:39`), so empty metadata adds nothing. It is taken as its rendered text, and truthiness is taken as "present and non-empty". A metadata object whose rendering is empty would be truthy in JavaScript; the model does not distinguish that case.
- The content of `ERROR_MSGS.CIRCULAR_DEPENDENCY` comes from `src/constants/error_msgs.ts`, which is not part of this model. The prefix is therefore the parameter `circularDependency`.
- The `Container`, `Target` and `Binding` interfaces are foreign.
  - `getBindings` is a total function parameter applied once.
  - A target is a record holding the answers of `isTagged()`, `isNamed()`, `getNamedTag()` and `getCustomTags()`.
  - The fields of `Request` that the helpers never read, such as `target`, are not modelled.
- The model does not capture that a request is one shared mutable object. Parent links are derived during traversal, so a plan whose `parentRequest` fields disagree with its `childRequests` cannot be expressed. `_createStringArr` pushes into an array and `reverse()` then reverses it in place; both are modelled as sequence values, and nothing else can see that array.
- Exception unwinding and call-stack depth are left out. A throw is a `Fail` outcome that the recursion passes straight up.
- JavaScript strings are UTF-16 code units, while Dafny's `char` is a Unicode scalar value. Surrogate pairs are not modelled. The whitespace class `\s` is modelled by its code points.
- `test/annotation/injectable.test.ts` is not modelled: it exercises decorator metadata, not these helpers.
