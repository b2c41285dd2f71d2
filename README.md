# Portfolio site logic, modelled in Dafny

This project models the small pieces of logic in a personal portfolio and research-blog site. The rest of the site is static markup.

- **SAT visualizer** (`sat_visualizer.dfy`, module `SatVisualizer`). This is the 3-SAT widget of the P-vs-NP paper.
  - Literals are signed integers and clauses are sequences of literals.
  - An assignment maps each variable to `null`, `true` or `false`. A key that is absent is `undefined`.
  - A clause's verdict is three-valued: satisfied, violated or undetermined.
  - Clicking a variable cycles it `null -> true -> false -> null`. Choosing a preset resets the assignment.
  - The status line is derived from the verdicts.
  - The three example formulas ("Easy (SAT)", "Hard (SAT)", "Unsatisfiable") are constants, and their properties are proved about those constants.
  - `ClauseValue` is the reference semantics, a recursive three-valued OR. `EvaluateClause` is the widget's loop (early return, `hasUnset` flag), proved equal to it.
  - The widget state is the class `Visualizer`.
- **Blog content index** (`blog.dfy`, module `Blog`). This covers `getAllPosts`, `getAllPostSlugs` and `getPostBySlug`.
  - The posts directory is `Option<seq<ContentFile>>`. `None` means the directory does not exist; otherwise it holds the entries in listing order, each with its parsed front matter and body.
  - The model keeps only `.mdx` names and derives the slug by removing the final `.mdx`.
  - It applies the front-matter defaults. JavaScript's `||` also sends an empty title to the slug.
  - It sorts newest first with a stable sort under the comparator `time(b) - time(a)`.
  - A lookup finds `<slug>.mdx`.
- **Navigation bar** (`navigation.dfy`, module `Navigation`). This is the link-highlight rule that the desktop list (lines 41-42) and the mobile list (lines 93-94) both use, and the mobile menu's open flag (class `NavigationBar`).
- **ELI5 walkthrough** (`eli5.dfy`, module `Eli5`). This is the step index with clamped Back/Next and dot jumps (class `Stepper`), the classification of the indicator dots, and the total lookup of each step's picture.

`wrappers.dfy` holds the `Option` type.

Behaviour of the code worth noting:
- The "Unsatisfiable" preset declares `numVars: 3` although only x1 and x2 occur. The status line therefore waits for x3 as well, but the formula is violated as soon as x1 and x2 are set (`UnsatisfiablePresetAlwaysViolated`).
- A post without a valid date makes the sort comparator return NaN, so its place in `getAllPosts` is not determined by the code. The model claims an order only when every date is valid.
- `allSatisfied` does not require every variable to be assigned, because a clause can be satisfied while some of its variables are unset. Only the status line waits for all variables (`assignedCount < numVars`).

## Model

| member | source | states |
|---|---|---|
| SatVisualizer.ClauseValue | src/components/pnp/SATVisualizer.tsx:55-69 | The reference three-valued OR of a clause: violated exactly when every literal is false, so the empty clause is violated. |
| SatVisualizer.EvaluateClause | src/components/pnp/SATVisualizer.tsx:55-69 | The loop's result equals the three-valued OR of the literals. It is `true` iff some literal is true, and `null` iff no literal is true and some variable is `null` or missing. |
| SatVisualizer.ClauseValueCharacterised | src/components/pnp/SATVisualizer.tsx:55-69 | Satisfied iff some literal is true. Violated iff no literal is true and every variable is set, so the empty clause is violated. Undetermined iff no literal is true and some variable is unset. |
| SatVisualizer.ClauseOrderIrrelevant | src/components/pnp/SATVisualizer.tsx:57-67 | Two clauses with the same literals in any order have the same verdict. |
| SatVisualizer.DecidedVerdictIsStable | src/components/pnp/SATVisualizer.tsx:57-68 | Setting further variables never changes a satisfied or violated verdict: a true literal wins whatever the unset literals become. |
| SatVisualizer.Toggled | src/components/pnp/SATVisualizer.tsx:93-103 | The toggle adds key `v` and changes no other key. A missing (`undefined`) entry becomes `null`. |
| SatVisualizer.ToggleIsThreeCycle | src/components/pnp/SATVisualizer.tsx:96-99 | On a present entry, one or two toggles change the value and three toggles restore the assignment. From `null` the order is `true`, then `false`. |
| SatVisualizer.ToggleKeepsOtherClauses | src/components/pnp/SATVisualizer.tsx:93-105 | Toggling `v` leaves the verdict of every clause that does not mention `v` unchanged. |
| SatVisualizer.Results | src/components/pnp/SATVisualizer.tsx:105 | `clauseResults` has one verdict per clause, and a verdict is `false` exactly when every literal of that clause is false. |
| SatVisualizer.AllSatisfied | src/components/pnp/SATVisualizer.tsx:106 | `allSatisfied` holds iff the number of satisfied clauses equals the number of clauses. |
| SatVisualizer.AnyViolated | src/components/pnp/SATVisualizer.tsx:107 | `anyViolated` holds iff the count of violated clauses is positive, and it never holds together with `allSatisfied`. |
| SatVisualizer.Count | src/components/pnp/SATVisualizer.tsx:219-231 | The filtered counts shown in the status line never exceed the number of clauses. |
| SatVisualizer.AssignedCount | src/components/pnp/SATVisualizer.tsx:108 | `assignedCount` is at most the number of keys, and is 0 iff every present variable is `null`. |
| SatVisualizer.FormulaFlagsCharacterised | src/components/pnp/SATVisualizer.tsx:105-107 | `allSatisfied` iff every clause has a true literal. `anyViolated` iff some clause has all variables set and no true literal. With at least one clause the two exclude each other. |
| SatVisualizer.VarRange | src/components/pnp/SATVisualizer.tsx:89 | The keys written by the reset loop are exactly 1..n, and there are n of them. |
| SatVisualizer.UnsetAssignment | src/components/pnp/SATVisualizer.tsx:79-83 | The loop `a[i] = null` for i = 1..numVars produces the all-`null` assignment over 1..numVars. |
| SatVisualizer.AllUnsetIsReset | src/components/pnp/SATVisualizer.tsx:85-108 | After a reset, the keys are exactly 1..numVars, every variable is `null`, and `assignedCount` is 0. |
| SatVisualizer.PresetsWellFormed | src/components/pnp/SATVisualizer.tsx:17-53 | Every preset literal is nonzero and names a variable in 1..numVars. |
| SatVisualizer.StatusDecidedWhenAllAssigned | src/components/pnp/SATVisualizer.tsx:216-236 | For a well-formed preset with all variables assigned, no clause verdict is `null`, and the status is exactly "all satisfied" or "violated", never blank. "All satisfied" holds iff every clause has a true literal. A violation message counts at least one clause. |
| SatVisualizer.StatusOf | src/components/pnp/SATVisualizer.tsx:216-236 | Unassigned iff fewer than numVars variables are set, with a positive remainder and a satisfied count no larger than the clause count. A violation message counts between 1 and the clause count. The line is blank only while some clause is undetermined. |
| SatVisualizer.AllTrueIsModel | src/components/pnp/SATVisualizer.tsx:225-228 | If every clause has a positive literal, the all-true total assignment makes the status "all satisfied". |
| SatVisualizer.SatisfiablePresetsHaveModels | src/components/pnp/SATVisualizer.tsx:18-41 | "Easy (SAT)" and "Hard (SAT)" each have a total assignment that shows "all satisfied". |
| SatVisualizer.UnsatisfiablePresetAlwaysViolated | src/components/pnp/SATVisualizer.tsx:42-52 | In "Unsatisfiable", every assignment that sets x1 and x2 has `anyViolated` and not `allSatisfied`. |
| SatVisualizer.UnsatisfiablePresetStatus | src/components/pnp/SATVisualizer.tsx:229-235 | With all its variables assigned, "Unsatisfiable" always shows violations and the unsatisfiability note. |
| SatVisualizer.LiteralToStringRoundTrip | src/components/pnp/SATVisualizer.tsx:71-74 | The display form `x<v>` / `¬x<v>` determines the literal: parsing it back gives the literal. |
| SatVisualizer.LiteralToString | src/components/pnp/SATVisualizer.tsx:71-74 | The display form has at least two characters and starts with `x` exactly for a positive literal. |
| SatVisualizer.Visualizer.constructor | src/components/pnp/SATVisualizer.tsx:77-83 | The widget starts on preset 0 with all of that preset's variables `null`. |
| SatVisualizer.Visualizer.SelectPreset | src/components/pnp/SATVisualizer.tsx:85-91 | Selecting a preset sets the index and resets the assignment to all-`null` over its variables, so the assigned count is 0. The key invariant is kept. |
| SatVisualizer.Visualizer.ToggleVariable | src/components/pnp/SATVisualizer.tsx:93-103 | The new assignment is the toggled old one. The preset is unchanged and the keys stay 1..numVars. |
| SatVisualizer.Visualizer.Status | src/components/pnp/SATVisualizer.tsx:216-236 | For the widget's current state, once every variable of the preset is assigned the status is "all satisfied" or "violated". |
| Blog.IsMdx | src/lib/blog.ts:32 | A name ends in `.mdx` only if it is the name with its last four characters removed, followed by `.mdx`. |
| Blog.StripMdx | src/lib/blog.ts:36 | Removing the final `.mdx` gives a slug that reproduces the name when `.mdx` is appended. Other names are unchanged. |
| Blog.SlugRoundTrip | src/lib/blog.ts:56 | `slug + ".mdx"` is an `.mdx` name whose slug is `slug`. |
| Blog.MdxFiles | src/lib/blog.ts:32 | Exactly the entries whose name ends in `.mdx` remain. |
| Blog.MdxFilesOfOne | src/lib/blog.ts:32 | A single entry is kept exactly when its name ends in `.mdx`. |
| Blog.MdxFilesAppend | src/lib/blog.ts:32 | Filtering a concatenation concatenates the filtered parts. With `MdxFilesOfOne`, the kept entries keep their listing order and multiplicity. |
| Blog.OrElse | src/lib/blog.ts:43-46 | The falsy-field fallback returns a present non-empty field itself, and the fallback when the field is missing or empty. It is empty only when the fallback is. |
| Blog.PostOf | src/lib/blog.ts:65-73 | The post carries the requested slug, the file's body and the reading time of that body. Non-empty title, date and excerpt fields are kept. A missing or empty title becomes the slug, so it is never empty when the slug is not. A missing or empty date or excerpt becomes `""`. Tags are kept when present and become `[]` when missing. |
| Blog.Metas | src/lib/blog.ts:34-49 | One metadata entry per file, in the same order, whose slug gives back the `.mdx` file name when `.mdx` is appended. |
| Blog.Slugs | src/lib/blog.ts:84 | One slug per file, in the same order, each giving back the `.mdx` file name when `.mdx` is appended. |
| Blog.Insert | src/lib/blog.ts:50 | Inserting a post adds exactly that post to the multiset. |
| Blog.SortNewestFirst | src/lib/blog.ts:50 | The sort returns a permutation of its input. |
| Blog.SortIsNewestFirst | src/lib/blog.ts:50 | With every date valid, the sorted list is non-increasing by timestamp. |
| Blog.SortIsStable | src/lib/blog.ts:50 | With every date valid, posts sharing a date keep their input order. |
| Blog.AllPosts | src/lib/blog.ts:27-53 | Empty when the directory is missing. Otherwise a permutation of the metadata of the `.mdx` files. |
| Blog.AllPostSlugs | src/lib/blog.ts:76-85 | Empty when the directory is missing. Otherwise one slug per `.mdx` file, in listing order, each giving the file name back with `.mdx` appended. |
| Blog.FindFile | src/lib/blog.ts:56-60 | Returns a file of the requested name when one exists, and nothing otherwise. |
| Blog.FindUnique | src/lib/blog.ts:56-58 | In a listing without repeated names, looking an entry up by its own name finds exactly that entry. |
| Blog.PostBySlug | src/lib/blog.ts:55-74 | Returns `null` iff the directory or `<slug>.mdx` is missing. Otherwise returns the post built from that file, whose slug is the argument. |
| Blog.PostsAndSlugsAgree | src/lib/blog.ts:32-36 | The post list and slug list have equal length, and the posts' slugs are a permutation of the slug list, multiplicities included. |
| Blog.EverySlugHasPost | src/lib/blog.ts:55-66 | Every listed slug is found by `getPostBySlug`, and the found post has that slug. |
| Blog.PostsAndSlugsShareMembers | src/lib/blog.ts:32-36 | Every post's slug is in the slug list, and every listed slug belongs to some post. |
| Blog.LookupAgreesWithList | src/lib/blog.ts:41-48 | List and lookup apply the same defaults: the lookup's metadata for a listed slug is an entry of the post list. |
| Blog.ListedPostMatchesLookup | src/lib/blog.ts:65-71 | In a listing without repeated names, every entry of `getAllPosts` equals, field by field, the metadata of the post `getPostBySlug` returns for its slug. |
| Blog.AllPostsNewestFirst | src/lib/blog.ts:50 | With every date valid, `getAllPosts` is newest first. |
| Blog.AllPostsStable | src/lib/blog.ts:50 | With every date valid, posts sharing a date appear in directory-listing order. |
| Navigation.IsActive | src/components/Navigation.tsx:41-42 | The `/` link is active only on `/`. Any other link is active exactly on the paths that begin with its href, so the exact-match test adds nothing for it. |
| Navigation.ExactMatchAlwaysActive | src/components/Navigation.tsx:41 | Every link, `/` included, is active on its own path. |
| Navigation.SectionActiveOnAnyExtension | src/components/Navigation.tsx:42 | The prefix test is raw: any path that begins with a section's href, such as `/blogx`, activates it. |
| Navigation.SectionHrefsPrefixFree | src/components/Navigation.tsx:8-16 | No href other than `/` is a prefix of another. |
| Navigation.AtMostOneActive | src/components/Navigation.tsx:41-42 | For any path, at most one link is highlighted. |
| Navigation.OwnPageHighlightsOnlyItsLink | src/components/Navigation.tsx:93-94 | On the page of a link, exactly that link is highlighted. |
| Navigation.NavigationBar.constructor | src/components/Navigation.tsx:20 | The mobile menu starts closed. |
| Navigation.NavigationBar.MenuButtonClicked | src/components/Navigation.tsx:55 | The menu button negates `mobileMenuOpen`. |
| Navigation.NavigationBar.MobileLinkClicked | src/components/Navigation.tsx:90 | A mobile link click closes the menu. |
| Eli5.VisualsCoverSteps | src/components/pnp/ELI5.tsx:154-160 | Every step's `visual` key is in the table of pictures. |
| Eli5.Back | src/components/pnp/ELI5.tsx:214 | Back keeps a step in range. |
| Eli5.Next | src/components/pnp/ELI5.tsx:224 | Next keeps a step in range. |
| Eli5.DisabledExactlyAtFixedPoints | src/components/pnp/ELI5.tsx:213-226 | Back leaves the step unchanged iff it is the first, and Next iff it is the last. These are exactly the steps where the buttons are disabled. |
| Eli5.BackNextRoundTrip | src/components/pnp/ELI5.tsx:214-224 | Next after Back returns to any step but the first, and Back after Next returns to any step but the last. |
| Eli5.IndicatorRowShape | src/components/pnp/ELI5.tsx:171-181 | The dot row is: visited dots before the step, exactly one current dot at it, then upcoming dots. |
| Eli5.IndicatorOf | src/components/pnp/ELI5.tsx:175-181 | Dot i is current iff i is the step, visited iff i is before it, upcoming iff i is after it. |
| Eli5.Indicators | src/components/pnp/ELI5.tsx:171-181 | One dot per step. Visited dots form a prefix of the row and upcoming dots a suffix. No two dots are current. |
| Eli5.Stepper.constructor | src/components/pnp/ELI5.tsx:163 | The walkthrough starts at step 0. |
| Eli5.Stepper.BackClicked | src/components/pnp/ELI5.tsx:214 | The step becomes `Back(old step)` and stays in range. |
| Eli5.Stepper.NextClicked | src/components/pnp/ELI5.tsx:224 | The step becomes `Next(old step)` and stays in range. |
| Eli5.Stepper.DotClicked | src/components/pnp/ELI5.tsx:174 | A dot click sets the step to exactly that dot's index. |
| Eli5.Stepper.CurrentVisual | src/components/pnp/ELI5.tsx:164-165 | The current step's picture is always found in the table. |

## Left out

- File-system access in `src/lib/blog.ts` (`existsSync`, `readdirSync`, `readFileSync`, `process.cwd()`). The directory is an input value.
- Front-matter parsing (gray-matter) is given as parsed fields, and reading-time estimation (reading-time) as a function parameter. YAML dates that gray-matter turns into `Date` objects are modelled as strings.
- Date parsing (`new Date(...).getTime()`) is a function parameter returning `None` for NaN. With an invalid date the comparator returns NaN and the engine's order is implementation-defined, so `Blog.AllPostsNewestFirst` and `Blog.AllPostsStable` claim nothing in that case.
- `Blog.ListedPostMatchesLookup` assumes the directory lists no name twice, as a file system guarantees. With repeated names the list could hold an entry the lookup does not return, and only `Blog.LookupAgreesWithList` (the lookup's metadata is some list entry) holds.
- `Blog.PostBySlug`: `path.join` normalisation is not modelled. A slug holding `/` or `..` is matched literally against entry names and is never resolved outside the directory.
- `SatVisualizer.Visualizer.ToggleVariable` requires `v` in 1..numVars. The only callers are the buttons rendered for exactly those variables (lines 136-141).
- Object keys in the widget's assignment are JavaScript strings. They are modelled as integers, which is how the code indexes them.
- The phase-transition curve (`PhaseTransition.tsx`) and the growth chart (`CombinatorialExplosion.tsx`) are not modelled because they are floating-point charting code.
- Markup, styling, framer-motion animations, the step texts of the walkthrough, and React's state plumbing are left out. Component state is modelled as class fields.
