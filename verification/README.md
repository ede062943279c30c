# commitsmith core, modelled in Dafny

commitsmith is a small terminal tool that asks for the parts of a
conventional commit in a two-page form and turns them into the commit
message. This project models its two pure cores and proves properties of
them:

- **The message formatter** (`git.go`). A `Commit` record has five fields:
  type, breaking-change flag, scope, description and body. A fixed
  `text/template` renders it as `type(scope)!: description` followed by an
  optional body after a blank line. `Git.Message` is that text in closed
  form. The template is also kept as a syntax tree, `Git.CommitTemplate`,
  and run by a small interpreter of the part of `text/template` it uses:
  field lookup, printing, and `if` on the truth of a field. The two are
  proved equal, so the template's execution-error branch is never taken.
  `Git.Parse` reads a message back into its record. It is proved to invert
  `Message` on every record whose type has no `(`, `!` or `:`, whose scope
  has no `)` and whose description is one line. Every selectable type
  qualifies.
- **The form's input rules and key dispatch** (`ui.go`). This covers:
  - the closed list of eleven commit types;
  - the seeding of the description from an optional message, cut to 60
    bytes;
  - the live "N characters remaining" titles for the description (limit
    60) and the body (limit 1000);
  - the non-empty validator on the description;
  - Bubble Tea's `Update`: ctrl+c interrupts and esc quits without reaching
    the form. Any other message goes to the form, and a quit is appended
    once the form is completed.

The huh form is abstract. On each event it reports four things: whether it
is still a form, its state (editing or completed), the commit as its field
bindings left it, and the command it returned. `Ui.Honors` states what the
library is assumed to guarantee of that report:
- the description's character limit holds;
- the select stores only one of its options;
- the form completes only after the validator passes;
- the form completes only with a type selected.

From that assumption, and from the seeding cut, a session started by
`NewModel` keeps three facts true: the description holds at most 60
characters, the type is unset or selectable, and a completed form carries
a ready commit.

Go strings are byte strings, and `len` and slicing count bytes. The model
keeps one `char` per byte (`Base.Bytes`) and never decodes multibyte
sequences. The seeding cut and the remaining counts count bytes, as Go's
`len` does, so the cut is a plain prefix of `min(60, len)` elements. The
input's `CharLimit` counts characters instead; `Base.CharCount` counts
them as the bytes that are not UTF-8 continuation bytes. Go's `%d` is
modelled by `Decimal.Format`, with a parser that inverts it.

Files: `base.dfy` (byte strings, `Option`, `Result`, `Min`, first-occurrence
search, UTF-8 character count), `decimal.dfy` (`%d`), `git.dfy` (record,
template, message, parser), `ui.dfy` (form rules, `Update`, sessions).

## Model

| member | source | states |
|---|---|---|
| Git.Message | git.go:11-13 | The message in closed form: type, `(scope)` for a non-empty scope, `!` for a breaking change, `: `, description, and a blank line and the body for a non-empty body. It is a definition; the rows below state its properties, its agreement with the template, and its inverse. |
| Git.TemplateNeverFails | git.go:11-15 | `templateString`, written as the syntax tree `Git.CommitTemplate` (type; `(scope)` under `if .Scope`; `!` under `if .BreakingChange`; `: ` and the description; `\n\n` and the body under `if .Body`). Executing it on any record succeeds. It prints exactly the closed-form message: type, `(scope)` only for a non-empty scope, `!` only for a breaking change, `: `, description, then a blank line and the body only for a non-empty body. |
| Git.Render | git.go:25-33 | `Message()` returns what the template prints. The error branch that returns the empty string is never taken. |
| Git.Lookup | git.go:17-23 | A template field reference resolves exactly for the five field names of `Commit`; the values it gives are fixed by `Git.TemplateNeverFails`. Methods of `*Commit` are not modelled (see below). |
| Git.StartsWithType | git.go:11 | The message begins with the type, verbatim. It is at least as long as the type, `: ` and the description together. |
| Git.ScopeSegmentIff | git.go:11 | The byte after the type is `(` exactly when the scope is non-empty. In that case the next bytes are `(`, the scope verbatim, and `)`. |
| Git.BreakingMarkerIff | git.go:11 | The byte after the type and any scope segment is `!` exactly for a breaking change. The next bytes are then `!: `, and `: ` otherwise. |
| Git.BodySeparation | git.go:11-13 | The header ends with `: ` and the description. The message equals the header exactly when the body is empty, so there is no trailing newline. Otherwise the header is followed by `\n\n` and the body verbatim. |
| Git.LengthLaw | git.go:11-13 | The message length is: type, plus scope+2 if there is a scope, plus 1 if breaking, plus 2, plus description, plus 2+body if there is a body. |
| Git.ExampleTypeOnly | git_test.go:14-24 | Type `feat` and description only gives `feat: Add user login feature`. Like the other three examples, the expected text is written as its segments joined together. |
| Git.ExampleScope | git_test.go:26-36 | Adding scope `auth` to a `fix` gives `fix(auth): Fix login issue`. |
| Git.ExampleBreaking | git_test.go:38-48 | A breaking change with scope gives `feat(auth)!: Introduce SSO login`. |
| Git.ExampleComplete | git_test.go:50-62 | With a body, the body follows the header after one blank line. |
| Git.ParseMessage | git.go:11-13 | Every unambiguous record is read back from its message. So distinct records of that kind render to distinct messages. |
| Git.ParseSound | git.go:11-13 | Whatever the parser accepts is exactly the message of the record it returns, and that record is unambiguous. |
| Decimal.FormatRoundTrip | ui.go:85 | The `%d` rendering of any integer, negative ones included, parses back to that integer. |
| Ui.TypeNameRoundTrip | ui.go:47-59 | Each of the eleven commit types has a stored name that reads back as that type. |
| Ui.CommitTypesAreTheTypes | ui.go:47-59 | The select lists exactly eleven options. Each stored value is one of the eleven type names, and every type is offered. |
| Ui.IsCommitTypeIff | ui.go:47-59 | A value is storable by the type select exactly when it names one of the eleven types. |
| Ui.SelectableTypeUnambiguous | ui.go:47-59 | A commit whose type comes from the select, whose scope has no `)` and whose description is one line renders to a message that parses back to it. |
| Ui.NewCommit | ui.go:77-82 | Without a message, every field is empty. With one, the description is a prefix of it, at most 60 bytes long. It is the whole message when that fits, and exactly 60 bytes otherwise. The other fields stay empty. |
| Ui.NewModel | ui.go:70-82 | The initial model is an editing form over the seeded commit, and it satisfies the session invariant. |
| Ui.Remaining | ui.go:114-116 | The remaining count is non-negative exactly when the field's byte length is within its limit. It never exceeds the limit, and equals it exactly for an empty field. |
| Ui.Title | ui.go:84-86 | A title is the prompt, a space, the count, and ` characters remaining`. |
| Ui.TitleRoundTrip | ui.go:84-86 | The count printed in a title reads back unchanged. |
| Ui.DescriptionTitle | ui.go:113-117 | The description title shows 60 minus the description length in bytes. For a description of at most 60 bytes that count is between 0 and 60. For an empty description it is the static initial title. |
| Ui.DescriptionCountGoesNegative | ui.go:115-117 | A description of 59 letters and one two-byte character holds 60 characters, within `CharLimit(60)`, yet its title shows -1. |
| Ui.CharDescriptionTitle | ui.go:113-117 | The description title counting characters: it shows 60 minus the character count, between 0 and 60 for every description within the char limit, and the static title when empty. |
| Ui.InvTitleInRange | ui.go:113-117 | Between events of a session, the character-counting title shows a count between 0 and 60. |
| Ui.BodyTitle | ui.go:129-133 | The body title shows 1000 minus the body length in bytes. For a body of at most 1000 bytes that count is between 0 and 1000. For an empty body it is the static initial title. |
| Ui.ValidateDescription | ui.go:119-124 | The validator reports `description cannot be empty` exactly for the empty string, and nothing otherwise. |
| Ui.Update | ui.go:148-176 | ctrl+c returns the model unchanged with an interrupt. esc returns it unchanged with a quit. For any other message, the model takes the commit and the state the form was updated to in place. The batch holds the form's command exactly when the returned model is still a form. It holds a quit exactly when the resulting form is completed, and never an interrupt. |
| Ui.UpdateKeepsInv | ui.go:110-135 | When the form honours its description char limit, select options and validator, and completes only with a type selected, one update preserves the session invariant. |
| Ui.RunKeepsInv | ui.go:148-176 | A session of honoured events preserves the invariant to its end. |
| Ui.RunStopsOnlyFor | ui.go:152-173 | A session ends with an interrupt only after ctrl+c. It ends with a quit only after esc or on a completed form. While it waits, neither key has been seen. |
| Ui.CompletedSessionIsReady | ui.go:170-173 | A session from `NewModel` that quits on a completed form hands over a ready commit. The description is non-empty and at most 60 characters long, and the message begins with a selectable type. When the scope has no `)` and the description is one line, the message parses back to that commit. |

## Left out

- `Commit.Commit` (git.go:35-78): opening the repository, reading the worktree status, the confirmation prompt and the commit write. This is I/O through go-git and huh.
- main.go: flag parsing, exit codes and running the Bubble Tea program. It calls `NewGit` and `Status`, which are not part of this model. It also calls `NewModel()` with no argument, which does not match `NewModel(msg *string)` in ui.go, so the `--message` path cannot be traced from it.
- The staged-changes precondition check and dry-run mode: they live in code that is not part of this model.
- Styles, colours, `View`, `Init`, and the width a `WindowSizeMsg` sets (ui.go:10-45, 144-146, 151, 178-188). These are rendering details that depend on lipgloss. A window-size message is still modelled as falling through to the form, as in the source.
- Git.Lookup: `text/template` resolves niladic methods of `*Commit` before its fields, so `.Message` would name the method at git.go:25. Methods are left out because the template names only the five fields.
- Ui.Honors: the description's bound is assumed in characters, the measure of huh's text input `CharLimit`, not in bytes. A description within the limit can exceed 60 bytes, so no byte bound is promised for it.
- Ui.Honors: no bound on the body is assumed. The text area enforces `CharLimit(1000)` in display width, which the model does not compute, so `Ready` and `CompletedSessionIsReady` promise no bound on the body. Its title has the same byte-count mismatch as the description's.
- The huh form's internals: group advancement, focus, and how `CharLimit`, the select and the validator are enforced. These are library behaviour. What the model relies on is stated as the `Honors` assumption.
- Ui.Update: `tea.Batch` is modelled as the list of commands handed to it. Dropping nil commands and collapsing short lists happen inside Bubble Tea.
- Ui.RunKeepsInv: a session is idealised as stopping at the first command that interrupts or quits. Bubble Tea runs commands asynchronously, so events already queued may still arrive.
- The scope input and the breaking-change confirm take any value. The source puts no constraint on them.
- The parse round trip (Git.ParseMessage) covers records whose fields cannot be confused with the surrounding punctuation. The formatter itself inserts every field verbatim and accepts any record.

Two further points about the code:
- The seeding cut and the remaining counts count bytes, as Go's `len` does. The cut can therefore end inside a multibyte character.
- A completed form sends a quit. Nothing in ui.go re-checks the record after that.

## Findings

| source | as written | input that shows it | evidently intended | confidence | as-written member | corrected member |
|---|---|---|---|---|---|---|
| ui.go:115 | The description title subtracts the description's byte length from 60, while the field's `CharLimit(60)` counts characters. | A description of 59 `a` and one `é`: 60 characters, 61 bytes. The field accepts it, and the title reads "-1 characters remaining". | Subtract the character count, so that the count stays between 0 and 60. | medium, not executed | Ui.DescriptionCountGoesNegative | Ui.CharDescriptionTitle |
