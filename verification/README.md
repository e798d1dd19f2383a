# Prototype pollution demonstration: a Dafny model

The script `server-side-prototype-pollution.js` walks through JavaScript
prototype mechanics. It contains two pieces of logic worth modelling:

- `String.prototype.removeWhitespace`, which it installs on every string. The
  method walks the string left to right and keeps each character that is not a
  space, tab, line feed or carriage return. `whitespace.dfy` (module
  `Whitespace`) models it twice. `Filter` is the recursive reference
  definition. `RemoveWhitespace` is the loop as written, proved equal to
  `Filter`. Lemmas state what the result is: no dropped characters, the same
  order, the same count of every kept character, and nothing else. They also
  prove that the filter distributes over concatenation, is idempotent, and
  reproduces the script's worked example.
- The lookup and seal behaviour shown in the script's detection section.
  `prototype.dfy` (module `Prototype`) models an object as a map of its own
  properties that inherits from one shared prototype. The prototype is a map
  plus a `sealed` flag. A read returns the own value, or else the prototype's
  value, or else `undefined`. Assigning to a sealed prototype updates a key it
  already has and silently ignores a key it lacks. The script's prototype
  statements form a small language (`Stmt`, run by `Run`). Lemmas show that
  running any script keeps every object's own properties unchanged. They also
  show that sealing is permanent and fixes the prototype's key set, and they
  replay the script's concrete sequence of statements.

A Dafny `char` is a Unicode scalar value, not a UTF-16 code unit, and `|s|`
counts scalar values rather than JavaScript's `this.length`. A surrogate pair is
one `char` here. The filter keeps it whole, just as the script keeps both of its
code units, so the results agree for every string the model can represent.

`Prototype.HasOwnProperty` models `hasOwnProperty` (line 73). `Prototype.Run`
executes the script's prototype statements top to bottom (lines 65-70 and 83).
The lemmas about `Run` state what it promises.

## Model

| member | source | states |
|---|---|---|
| Whitespace.Filter | server-side-prototype-pollution.js:30-35 | the result contains none of space, tab, line feed, carriage return and is never longer than the input |
| Whitespace.FilterKeepsOrder | server-side-prototype-pollution.js:30-34 | the result is a subsequence of the input (order kept) whose length is the number of non-dropped input characters |
| Whitespace.FilterCharacterization | server-side-prototype-pollution.js:30-35 | a string is the result if and only if it is a subsequence of the input, holds no dropped character, and has as many characters as the input has kept ones |
| Whitespace.FilterCounts | server-side-prototype-pollution.js:31-32 | each non-dropped character occurs in the result as often as in the input; the four dropped characters never occur |
| Whitespace.FilterIdentity | server-side-prototype-pollution.js:29-35 | the result equals the input exactly when the input has none of the four characters |
| Whitespace.FilterIdempotent | server-side-prototype-pollution.js:30-33 | applying the method to its own result returns that result unchanged |
| Whitespace.FilterAppend | server-side-prototype-pollution.js:30-33 | filtering a concatenation equals concatenating the filtered parts |
| Whitespace.FilterExample | server-side-prototype-pollution.js:38-40 | the four words of the example string, concatenated, filter to `"igotsspaces"` |
| Whitespace.ScriptExample | server-side-prototype-pollution.js:38-40 | the script's literal `" i gots spaces    "` filters to `"igotsspaces"` |
| Whitespace.RemoveWhitespace | server-side-prototype-pollution.js:28-36 | the left-to-right loop with its accumulator returns exactly the reference filter of its input |
| Prototype.Get | server-side-prototype-pollution.js:73-80 | a read finds a value exactly when the key is an own or a prototype property; an own property shadows the prototype; without one the prototype's current value or `undefined` is returned |
| Prototype.Seal | server-side-prototype-pollution.js:68 | the prototype becomes sealed and its properties are unchanged |
| Prototype.Put | server-side-prototype-pollution.js:61-70 | after an assignment to the prototype the key holds the new value exactly when the prototype is unsealed or already has the key; a sealed prototype ignores an absent key and never gains keys; other keys keep their values |
| Prototype.Exec | server-side-prototype-pollution.js:64-70 | a seal statement seals the prototype and keeps its properties; an assignment statement applies `Put` to the prototype; no statement changes any object; on a sealed prototype every statement keeps it sealed with the same keys |
| Prototype.RunKeepsOwnProperties | server-side-prototype-pollution.js:72-73 | after any sequence of prototype assignments and seals, each object's own properties, and so every `hasOwnProperty` answer, are what they were before |
| Prototype.SealedKeysFixed | server-side-prototype-pollution.js:61-70 | once sealed, the prototype stays sealed and keeps exactly its key set under any later script |
| Prototype.GetAfterPut | server-side-prototype-pollution.js:64-80 | after a prototype assignment a read on an object without that own key yields the new value if the assignment took effect and `undefined` if a sealed prototype refused it; an own property makes the read unaffected |
| Prototype.PollutedThenSealed | server-side-prototype-pollution.js:56-83 | for `{ a: 1, b: 2 }`, setting `foo` to `'bar'`, sealing, then setting `'baz'` leaves no own `foo`, own keys `a` and `b`, and a read of `foo` giving `'baz'`; a later `'bar'` still takes effect |
| Prototype.SealedThenPolluted | server-side-prototype-pollution.js:61-65 | sealing before the pollution leaves the prototype without `foo`, and reading it gives `undefined` |

## Left out

- Console output (lines 7-11, 26, 40, 52, 77, 80, 86) is I/O. The model states the values that would be printed, not the printing.
- `Object.getPrototypeOf` on built-in values (lines 14-24) is a reflection fact of the runtime, with no logic in the script.
- `JSON.parse` versus the object-literal `__proto__` key (lines 42-46) is host parser behaviour.
- `for...in` enumeration (lines 76-78, 85-87) is engine-defined iteration order. The loops also list inherited enumerable keys, so they print `foo` after `a`, `b` and after `0`, `1`. The model proves only that the object's own keys stay `a` and `b`.
- `Object.freeze` (line 59, commented out) and property descriptors are not modelled. Sealing is modelled only as "no new keys, existing keys stay writable".
- `String.prototype.customProp` (lines 48-52) uses the same fallback read that `Prototype.GetAfterPut` covers. It is not replayed separately.
- Prototype chains are one level deep: an object and the one shared prototype. The prototype's built-in properties are whatever initial map the caller supplies. The replayed scenarios start from an empty map, because the built-ins do not affect `foo`.
- Assignment is modelled as in non-strict mode, where a refused write is silently ignored. Strict mode would throw a `TypeError`.
- Strings containing an unpaired surrogate code unit are outside the model, because a Dafny `char` cannot hold one. The script would keep such a code unit.
