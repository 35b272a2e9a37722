# lsd size and owner columns, modelled in Dafny

This project models two column formatters from the `lsd` directory lister.

- **Size** (`src/meta/size.rs`) turns a file's byte length into a pre-scaled value and one of five units (B, KB, MB, GB, TB). It renders the value right-aligned and the unit left-aligned in caller-given widths, and picks a colour role by tier.
- **Owner** (`src/meta/owner.rs`) holds a user name and a group name. It right-aligns each name in a caller-given width.

The ANSI painting becomes a `Color.Painted` value: the padded text plus the role (`User`, `Group`, `FileSmall`, `FileMedium`, `FileLarge`) the palette would paint it with.

Files:

- `color.dfy` holds the roles and the painted cell.
- `padding.dfy` holds `Spaces`, `PadLeft` and `PadRight`. Each padding function comes with a lemma saying its contract determines its result.
- `size.dfy` holds tier selection, unit strings, colour roles, the fraction-truncation rule and the `render` method.
- `owner.dfy` holds the owner value, its accessors, and the `render_user` / `render_group` methods.

`render`, `render_user` and `render_group` are methods. Their `for` loops push spaces, and the loop invariants state the string built so far. Each method's `ensures` pins its output to a specification function (`Cell`, `PadLeft`). So two calls with the same arguments return the same output. Tier selection, `paint`, `render_unit` and `render_value` are functions.

## Model

| member | source | states |
|---|---|---|
| `MetaSize.FromLen` | src/meta/size.rs:20-50 | The unit is the largest one whose scale (1024^k) does not exceed `len`. Byte holds everything below 1024; Tera has no upper bound. The stored value is `len * 1024 / 1024^k`, so `value / 1024 == len / 1024^k` for every tier. The shown magnitude is below 1024 for every tier except Tera. A Byte value is a multiple of 1024. |
| `MetaSize.TierIsUnique` | src/meta/size.rs:24-49 | Only one unit satisfies the selection rule for a given `len`, and `FromLen` picks it. |
| `MetaSize.TierTable` | src/meta/size.rs:24-49 | The five ranges with their exact unit and value, e.g. Kilo for `1024 <= len < 1024²` with `value == len`. The tests are strict, so `len == 1024` is Kilo and 1023 is Byte. |
| `MetaSize.TierExamples` | src/meta/size.rs:29-33 | 500000 bytes is Kilo with value 500000. 1024 bytes shows magnitude 1. |
| `MetaSize.Paint` | src/meta/size.rs:75-83 | The role is FileSmall exactly for Byte/Kilo, FileMedium exactly for Mega, and FileLarge exactly for Giga/Tera. It depends on the unit only. |
| `MetaSize.PaintByLength` | src/meta/size.rs:75-83 | In terms of byte length: below 1 MiB is small, below 1 GiB is medium, anything larger is large. |
| `MetaSize.RenderUnit` | src/meta/size.rs:105-113 | The unit string is one character for Byte and two for every other unit, and always ends in 'B'. |
| `MetaSize.RenderUnitTable` | src/meta/size.rs:105-113 | The exact strings are B, KB, MB, GB and TB. |
| `MetaSize.RenderUnitInjective` | src/meta/size.rs:105-113 | Different units render as different strings. |
| `MetaSize.Find` | src/meta/size.rs:89 | Returns the index of the first occurrence of the character, with none before it, or None exactly when the character does not occur. |
| `MetaSize.FindUnique` | src/meta/size.rs:89 | An occurrence with no earlier occurrence is the index `Find` returns. |
| `MetaSize.RenderValue` | src/meta/size.rs:85-103 | Requires that the first '.' is not the last character. The result is a prefix of the input. Input with no '.' comes back unchanged. The whole integer part is kept. The result's first '.' has exactly one character after it. When the input's first fractional digit is not '0', that digit is kept (the result is two characters longer than the integer part). The result never ends in ".0". |
| `MetaSize.RenderValueCases` | src/meta/size.rs:89-99 | If the character after the first '.' is '0', the result is the part before the '.'. Otherwise it is the part through the '.' plus one character. |
| `MetaSize.RenderValueDecimal` | src/meta/size.rs:85-103 | On `integral "." fraction`: gives `integral` when the fraction starts with '0', otherwise `integral "." first-digit`. The fraction is truncated, never rounded. |
| `MetaSize.RenderValueIdempotent` | src/meta/size.rs:85-103 | Applying the rule to its own output changes nothing, and that output still satisfies the precondition. |
| `MetaSize.RenderValueExample1` | src/meta/size.rs:97-98 | "488.28125" becomes "488.2". |
| `MetaSize.RenderValueExample2` | src/meta/size.rs:100-101 | "1" stays "1". |
| `MetaSize.RenderValueExample3` | src/meta/size.rs:92-94 | "32.01" becomes "32". |
| `MetaSize.RenderValueExample4` | src/meta/size.rs:95-98 | "1.99" becomes "1.9". |
| `MetaSize.Cell` | src/meta/size.rs:60-70 | The cell is `valueAlignment + 1 + unitAlignment` long. It holds spaces, then the value ending at column `valueAlignment`, one space, the unit, then trailing spaces. |
| `MetaSize.CellExample` | src/meta/size.rs:60-70 | Value "1" with unit "KB" in widths 6 and 3 is `"     1 KB "`. |
| `MetaSize.Render` | src/meta/size.rs:54-73 | Requires both widths to cover the rendered value and unit. The text is exactly `Cell(value, unit, ...)`, built by the two space loops, and the role is `Paint` of the size. |
| `Padding.Spaces` | src/meta/owner.rs:45-47 | n pushes of a space give a string of length n made only of spaces. |
| `Padding.PadLeft` | src/meta/owner.rs:43-49 | The result has length `width`, its suffix is the string, and everything before that suffix is a space. When the width equals the length, the result is the string itself. |
| `Padding.PadRight` | src/meta/size.rs:66-70 | The result has length `width`, its prefix is the string, and everything after that prefix is a space. When the width equals the length, the result is the string itself. |
| `Padding.SpacesUnique` | src/meta/owner.rs:45-47 | A string made only of spaces equals `Spaces` of its length. |
| `Padding.PadLeftUnique` | src/meta/owner.rs:43-49 | Any string with PadLeft's length, suffix and leading spaces is PadLeft's result. |
| `Padding.PadRightUnique` | src/meta/size.rs:66-70 | Any string with PadRight's length, prefix and trailing spaces is PadRight's result. |
| `MetaOwner.UserName` | src/meta/owner.rs:34-36 | `user()` returns the stored user name: with the unchanged group it rebuilds exactly the same owner. |
| `MetaOwner.GroupName` | src/meta/owner.rs:38-40 | `group()` returns the stored group name: with the unchanged user it rebuilds exactly the same owner. |
| `MetaOwner.AccessorsReturnFields` | src/meta/owner.rs:34-40 | `user()` and `group()` on an owner built from two names return exactly those names. |
| `MetaOwner.RenderUser` | src/meta/owner.rs:42-50 | Requires `userAlignment >= |user|`. The text is the user name preceded by `userAlignment - |user|` spaces, so its length is exactly `userAlignment`. The role is `User`. Loop invariant: after i iterations the pad is exactly i spaces. |
| `MetaOwner.RenderGroup` | src/meta/owner.rs:52-60 | The same as RenderUser for the group name, with role `Group`. |
| `MetaOwner.RenderUserExample` | src/meta/owner.rs:42-50 | "bob" in width 10 is seven spaces followed by "bob". |

## Left out

- The conversion `value as f32 / 1024.0` and its `to_string` (size.rs:86) are floating point with shortest-round-trip formatting. `RenderValue` and `Render` instead take the decimal string that step produced as a parameter.
- The uid/gid lookups through the `users` crate, `OsStr::to_str` and their `.expect` panics (owner.rs:15-27) are foreign system calls. An `Owner` is built from two given names.
- `std::fs::Metadata` and the `meta.len() as usize` cast (size.rs:22) are I/O and platform width. The length is an unbounded `nat`, so the cast's possible truncation and the `len * 1024` overflow on the Byte tier are not modelled. Below 1024 that product is at most 1047552, which fits any `usize`.
- The ANSI palette `Colors` and `paint` with a style (size.rs:77-81, owner.rs:49, owner.rs:59) are a foreign library and global state. The result carries the colour role instead.
- String lengths are counted in characters. The source counts UTF-8 bytes (`len()`) and indexes by both bytes and characters, which agree only on ASCII names and numbers.
- When a width is smaller than its content, the source's `usize` subtraction underflows. The model states that condition as a precondition of `Render`, `RenderUser` and `RenderGroup` instead of modelling the panic or wrap-around.
- `String::with_capacity` (size.rs:55, owner.rs:43, owner.rs:53) only reserves memory and has no visible effect.
