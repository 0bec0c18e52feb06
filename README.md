# EnergyPlus input substitution, EPW weather files and a rule-based HVAC controller, in Dafny

This project models three parts of a building-energy experiment repository:

- **IDF substitution** (`epw/core.py`).
  - `re_substitute` finds a field of an EnergyPlus input (IDF) text and replaces its value token. The field is located by an object-type marker, then an instance-name marker, then a line `<spaces><token><, or ;> +!- <field>`.
  - `sub_one_field` does three things in order. It unwraps one-element lists and tuples in the caller's map, in place. It insists on scalar values. It then applies `re_substitute` entry by entry.
  - `sub_run` either runs a map once or splits it into a batch of column-wise requests.
  - `expand_path` is `expanduser` followed by `abspath`, with POSIX `posixpath` rules.
- **EPW weather files** (`epw/weather.py`).
  - The `Weather` class reads a file's header lines into a dictionary. It reads the climate records from the first all-digit first field onward into a 35-column table.
  - `write` emits the headers, then the table.
- **Rule-based controller** (`fixed_control.py`).
  - `CustomZone.act` picks the summer or winter setpoint pair from the observed date.
  - `MyRuleBasedController.act` moves both setpoints one degree against the comfort range. It then clamps them into the action box, and on Sundays replaces the action with a fixed normalised pair.
  - The experiment loop averages the HVAC demand over each episode.

Modules and files:

- `wrappers.dfy`: `Option` and `Result`.
- `idf_regex.dfy` (`IdfRegex`): the regular expression of `re_substitute`, for literal markers, and its round trip.
- `idf_substitution.dfy` (`IdfSubstitution`): substitution values, `str()` of them, `sub_one_field` (a method that updates the caller's map) and `sub_run`.
- `path_expansion.dfy` (`PathExpansion`): `expanduser`, `abspath`, `normpath` and `expand_path`.
- `epw_weather.dfy` (`EpwWeather`): the `Weather` class, its reading and writing loops, and the specification functions they are proved against.
- `fixed_control.dfy` (`FixedControl`): both `act` methods as functions, and the episode loop as methods.

How the source's behaviour is modelled:

- **The substitution pattern.** `(?P<g1>OBJ.*?)(?P<g2>NAME.*?^ *)[^,;]+(?P<g3>(,|;) +!- FIELD)` is matched with `MULTILINE|DOTALL`, exactly at the character level. Each lazy `.*?` takes the first occurrence that lets the rest match. `re.sub` replaces every non-overlapping match, continuing after each.
- **Substitution maps.** A substitution map is a sequence of entries in dictionary order. In `sub_run`:
  - An empty map passes `all([])` and then fails at `min([])`. It is an error, not a no-op.
  - A scalar in a map that also holds sequences is not broadcast: the map goes once through the single branch, where any sequence of more than one element then fails the scalar check.
- **EPW files.** A weather file is the sequence of records a CSV reader yields, one per line.
  - A blank line before the climate data makes the reader fail.
  - A file in which no record has an all-digit first field has its last line read twice: once as a header and once as the table.
- **The controller.** It names the observation entries by zipping them with the environment's variable and actuator names.
  - With the names the script uses, the current heating setpoint is the entry named outdoor temperature. The cooling setpoint is the entry named zone temperature.
  - There is no `month` entry, so the date is always Monday 1 January 2024.
  - `MyRuleBasedController.act` always uses the winter comfort range, because the seasonal choice is overwritten on the next line.
  - The model keeps all of this as written. The lemmas `ScriptRuleBasedAct` and `ScriptCustomZoneAct` state it.
- **Environment values.**
  - `expand_path` reads HOME, the password database and the working directory. These are a parameter `Env`, and the working directory is taken to be absolute.
  - The IDF text, the weather file's records and the environment's step outcomes are parameters.

## Model

| member | source | states |
|---|---|---|
| IdfRegex.Find | sinergym_env/lib/python3.12/site-packages/epw/core.py:137 | a lazy `.*?` before a marker stops at an occurrence of the marker at or after the position, with no occurrence between the position and it |
| IdfRegex.FindNoLater | sinergym_env/lib/python3.12/site-packages/epw/core.py:137 | any occurrence of the marker at or after the position makes the search succeed, at that occurrence or an earlier one |
| IdfRegex.FieldLineAt | sinergym_env/lib/python3.12/site-packages/epw/core.py:137 | a field line found at a position has its token before its delimiter, and its `!- field` comment ending within the text |
| IdfRegex.FieldLineAtSound | sinergym_env/lib/python3.12/site-packages/epw/core.py:137 | a field line starts at a line start, has only spaces before a non-empty token, no `,`/`;` in the token, a `,`/`;`, then one or more spaces and `!- field` |
| IdfRegex.FindFieldLine | sinergym_env/lib/python3.12/site-packages/epw/core.py:137 | `.*?^` stops at the first line start from which the rest of the pattern matches; none means no such line |
| IdfRegex.MatchFrom | sinergym_env/lib/python3.12/site-packages/epw/core.py:137 | a match found from a position lies at or after it, with object, token, delimiter and comment in order |
| IdfRegex.MatchFromSound | sinergym_env/lib/python3.12/site-packages/epw/core.py:137 | what is found is an occurrence of the whole pattern: object marker, later name marker, later field line |
| IdfRegex.MatchFromComplete | sinergym_env/lib/python3.12/site-packages/epw/core.py:137 | whenever the pattern occurs at or after a position, a match is found that starts no later (leftmost match) |
| IdfRegex.ReSubstituteShape | sinergym_env/lib/python3.12/site-packages/epw/core.py:131-140 | without a match the text is unchanged; otherwise the text before the token is kept, the token becomes `str(value)`, and the delimiter, spaces and `!-` comment follow unchanged |
| IdfRegex.ReSubstituteRest | sinergym_env/lib/python3.12/site-packages/epw/core.py:137-140 | `re.sub` replaces every match: after the first match's comment the result is the substitution resumed where that match ended, and is the remaining text unchanged when no further match exists |
| IdfRegex.Locate | sinergym_env/lib/python3.12/site-packages/epw/core.py:137 | the token the pattern selects is non-empty and holds no `,` or `;` |
| IdfRegex.LocateAfterSubstitute | sinergym_env/lib/python3.12/site-packages/epw/core.py:131-140 | round trip: after substituting a delimiter-free value into a field that exists, the same field reads back as exactly that value |
| IdfSubstitution.UnwrapAll | sinergym_env/lib/python3.12/site-packages/epw/core.py:80-82 | the unwrapped map has the same keys in the same order |
| IdfSubstitution.NatToStringValue | sinergym_env/lib/python3.12/site-packages/epw/core.py:138 | the decimal digits `str()` writes for a natural number denote that number |
| IdfSubstitution.IntToStringParses | sinergym_env/lib/python3.12/site-packages/epw/core.py:138 | `str()` of an integer parses back to that integer (the model converts integers of any length; see Left out) |
| IdfSubstitution.NumericTextIsToken | sinergym_env/lib/python3.12/site-packages/epw/core.py:138 | `str()` of an int or bool is a non-empty token without `,`, `;` or a leading space, so it can stand as a field value |
| IdfSubstitution.ApplyAllAppend | sinergym_env/lib/python3.12/site-packages/epw/core.py:99-100 | substituting a map is substituting its first part, then the rest into that output |
| IdfSubstitution.SubOneFieldText | sinergym_env/lib/python3.12/site-packages/epw/core.py:86-87 | succeeds exactly when every unwrapped value is an int, float, bool or str; an empty map returns the text unchanged |
| IdfSubstitution.SingleEntryText | sinergym_env/lib/python3.12/site-packages/epw/core.py:99-100 | a one-entry scalar map is one call of `re_substitute` |
| IdfSubstitution.SingleEntryReadsBack | sinergym_env/lib/python3.12/site-packages/epw/core.py:99-102 | after substituting an int or bool into an existing field, the field reads back as `str(value)` |
| IdfSubstitution.SubOneField | sinergym_env/lib/python3.12/site-packages/epw/core.py:77-102 | the caller's map is replaced by its unwrapped form, and the result is the ordered substitution of it, or the scalar-check failure |
| IdfSubstitution.Requests | sinergym_env/lib/python3.12/site-packages/epw/core.py:69 | a batch of length n gives n requests, each with every key of the map |
| IdfSubstitution.RequestsReassemble | sinergym_env/lib/python3.12/site-packages/epw/core.py:69 | request i maps each key to the i-th element of its sequence; the k-th entries of all requests, in order, are the k-th value's sequence |
| IdfSubstitution.PlanRuns | sinergym_env/lib/python3.12/site-packages/epw/core.py:60-72 | empty map iff `EmptyRequest`; single branch iff some value is not a list/tuple longer than 1, and it gets the map itself; unequal lengths iff `InconsistentBatchSize`; a batch has more than one request |
| IdfSubstitution.BatchTexts | sinergym_env/lib/python3.12/site-packages/epw/core.py:70 | one output per request, each that request's `sub_one_field` text; a failure means some request failed |
| IdfSubstitution.BatchRunsColumns | sinergym_env/lib/python3.12/site-packages/epw/core.py:68-70 | a successful batch yields exactly n texts in index order, the i-th computed from the map of i-th elements |
| IdfSubstitution.SubRun | sinergym_env/lib/python3.12/site-packages/epw/core.py:55-74 | the runs are those of the plan; the single branch unwraps the caller's map in place, the batch branch leaves it unchanged |
| IdfSubstitution.RunBatch | sinergym_env/lib/python3.12/site-packages/epw/core.py:70 | the loop over requests computes the batch outputs and stops at the first failure |
| IdfSubstitution.BatchFailurePropagates | sinergym_env/lib/python3.12/site-packages/epw/core.py:70 | once a prefix of the batch fails, the whole batch fails with the same error |
| PathExpansion.CollapseProper | sinergym_env/lib/python3.12/site-packages/epw/core.py:49 | normalising an absolute path keeps no empty, `.` or `..` component |
| PathExpansion.CollapseKeeps | sinergym_env/lib/python3.12/site-packages/epw/core.py:49 | components that are already proper are kept, in order |
| PathExpansion.NormPathNormal | sinergym_env/lib/python3.12/site-packages/epw/core.py:49 | `normpath` of an absolute path is in normal form (its leading slashes, then proper components) |
| PathExpansion.NormPathFixed | sinergym_env/lib/python3.12/site-packages/epw/core.py:49 | `normpath` leaves a path in normal form unchanged |
| PathExpansion.AbsPath | sinergym_env/lib/python3.12/site-packages/epw/core.py:49 | `abspath` returns an absolute path in normal form |
| PathExpansion.ExpandPath | sinergym_env/lib/python3.12/site-packages/epw/core.py:47-52 | `None` iff the input is `None`; any path becomes an absolute path in normal form |
| PathExpansion.AbsPathRelative | sinergym_env/lib/python3.12/site-packages/epw/core.py:49 | a relative path of proper components is resolved against the working directory: the directory, a `/` unless it already ends with one, then the path |
| PathExpansion.CollapseIntoAndOut | sinergym_env/lib/python3.12/site-packages/epw/core.py:49 | in an absolute path, a proper component followed by `..` cancels out, whatever the components before and after: `..` removes exactly one component |
| PathExpansion.AbsPathIntoAndOut | sinergym_env/lib/python3.12/site-packages/epw/core.py:49 | for every working directory in normal form and every proper component `c`, `c/..` resolves to the working directory itself |
| PathExpansion.ExpandHomePath | sinergym_env/lib/python3.12/site-packages/epw/core.py:47-52 | for every home directory in normal form, `~/rest` with proper components becomes the home directory, `/`, then `rest` (only `/rest` when the home is `/` or `//`) |
| PathExpansion.NormalJoin | sinergym_env/lib/python3.12/site-packages/epw/core.py:49 | joining a normal absolute path with proper components gives a normal absolute path |
| PathExpansion.SplitConcat | sinergym_env/lib/python3.12/site-packages/epw/core.py:49 | splitting `a + "/" + b` gives the pieces of `a` followed by those of `b` |
| PathExpansion.ExpandPathIdempotent | sinergym_env/lib/python3.12/site-packages/epw/core.py:47-52 | expanding an expanded path changes nothing |
| PathExpansion.ExpandUserHome | sinergym_env/lib/python3.12/site-packages/epw/core.py:48 | `~` or `~/rest` becomes the home directory, without trailing slashes, followed by the rest |
| PathExpansion.ExpandHomeExample | sinergym_env/lib/python3.12/site-packages/epw/core.py:25-29 | with home `/home/jack` and cwd `/bar`, `~/foo` becomes `/home/jack/foo` |
| PathExpansion.ExpandRelativeExample | sinergym_env/lib/python3.12/site-packages/epw/core.py:31-32 | with cwd `/bar`, `baz` becomes `/bar/baz` |
| PathExpansion.ExpandParentExample | sinergym_env/lib/python3.12/site-packages/epw/core.py:34-35 | with cwd `/bar`, `../tmp` becomes `/tmp` |
| EpwWeather.ScanEnd | sinergym_env/lib/python3.12/site-packages/epw/weather.py:34-36 | the header scan stops at the first blank line or line with an all-digit first field, and at no line before it |
| EpwWeather.Put | sinergym_env/lib/python3.12/site-packages/epw/weather.py:38 | `d[k] = v`: an existing key keeps its place, a new key goes last |
| EpwWeather.PutLookup | sinergym_env/lib/python3.12/site-packages/epw/weather.py:38 | after `d[k] = v`, `k` maps to `v` and every other key keeps its value |
| EpwWeather.PutDistinct | sinergym_env/lib/python3.12/site-packages/epw/weather.py:38 | the dictionary never holds a key twice |
| EpwWeather.CollectLast | sinergym_env/lib/python3.12/site-packages/epw/weather.py:34-38 | a header key maps to the values of the last line starting with it (later duplicates overwrite) |
| EpwWeather.CollectAbsent | sinergym_env/lib/python3.12/site-packages/epw/weather.py:34-38 | a key no header line starts with is absent |
| EpwWeather.CollectDistinct | sinergym_env/lib/python3.12/site-packages/epw/weather.py:31-39 | the headers read have distinct keys |
| EpwWeather.CollectSize | sinergym_env/lib/python3.12/site-packages/epw/weather.py:31-39 | there are no more header keys than header lines |
| EpwWeather.ParseRow | sinergym_env/lib/python3.12/site-packages/epw/weather.py:84-87 | every table row has all 35 columns |
| EpwWeather.FrameRowsWidth | sinergym_env/lib/python3.12/site-packages/epw/weather.py:84-87 | every row of a table read from a file has 35 cells |
| EpwWeather.DataFollowsHeaders | sinergym_env/lib/python3.12/site-packages/epw/weather.py:35-39 | when the file has a climate record, the table starts at the first one, the lines before it are non-blank headers, the header keys are exactly their first fields, and there are at most that many keys |
| EpwWeather.LastHeaderReadAsData | sinergym_env/lib/python3.12/site-packages/epw/weather.py:98-101 | without climate records the data start is the last line, which is also a header entry |
| EpwWeather.ReadWrittenCell | sinergym_env/lib/python3.12/site-packages/epw/weather.py:84-87 | a written cell reads back as itself unless its text is a missing-value string |
| EpwWeather.CollectHeaderLines | sinergym_env/lib/python3.12/site-packages/epw/weather.py:38 | the written header lines read back as the same dictionary when the keys are distinct |
| EpwWeather.FrameRowsWritten | sinergym_env/lib/python3.12/site-packages/epw/weather.py:118-119 | written table rows of 35 cells read back as the same rows |
| EpwWeather.ScanEndOfWritten | sinergym_env/lib/python3.12/site-packages/epw/weather.py:115-119 | in a written file the header scan stops exactly at the first table row |
| EpwWeather.WriteReadHeaders | sinergym_env/lib/python3.12/site-packages/epw/weather.py:104-119 | round trip: headers with non-numeric keys, written with a table, are read back as the same key-to-fields map |
| EpwWeather.WriteReadFrame | sinergym_env/lib/python3.12/site-packages/epw/weather.py:42-89 | round trip: a written table whose first row starts with a number is read back as the same table under the 35 column names |
| EpwWeather.Weather.constructor | sinergym_env/lib/python3.12/site-packages/epw/weather.py:13-15 | a fresh `Weather` has no headers and no table |
| EpwWeather.Weather.Read | sinergym_env/lib/python3.12/site-packages/epw/weather.py:18-23 | headers are replaced first, then the table; a failure leaves what was not yet replaced unchanged |
| EpwWeather.Weather.ReadMetadata | sinergym_env/lib/python3.12/site-packages/epw/weather.py:26-39 | the loop with its early break computes the header dictionary, which has distinct keys |
| EpwWeather.Weather.FirstRowWithClimateData | sinergym_env/lib/python3.12/site-packages/epw/weather.py:92-101 | the scan returns the first climate record or else the last line's index, always within the file; an empty file is an error |
| EpwWeather.Weather.ReadData | sinergym_env/lib/python3.12/site-packages/epw/weather.py:42-89 | the table starts at the data-start line, under the 35 column names, every row 35 cells wide |
| EpwWeather.Weather.Write | sinergym_env/lib/python3.12/site-packages/epw/weather.py:104-119 | the written lines are the header lines, then the table rows; with no table only the headers are written and the call fails |
| FixedControl.ZipGet | fixed_control.py:95 | `dict(zip(names, observation))[k]`: absent iff no paired name is `k`, otherwise the value paired with its last occurrence |
| FixedControl.MakeDate | fixed_control.py:103 | `datetime(2024, month, day)` succeeds iff both are integers forming a day of 2024; non-integers are a type error |
| FixedControl.SummerMonths | fixed_control.py:100-106 | a day lies between June 1 and September 30 iff its month is June to September |
| FixedControl.Weekday | fixed_control.py:182 | the weekday is in 0..6, and 1 January 2024 is a Monday (0) |
| FixedControl.NextDayWeekday | fixed_control.py:182 | the day after any day of 2024, across month ends and the 29-day February included, has the next weekday |
| FixedControl.KnownWeekdays | fixed_control.py:182 | 29 February 2024 is a Thursday, 25 December a Wednesday and 31 December a Tuesday |
| FixedControl.SundaysOfJanuary | fixed_control.py:182 | `weekday() > 5` only on Sunday; in January 2024 exactly on the 7th, 14th, 21st and 28th |
| FixedControl.CustomZoneAct | fixed_control.py:86-111 | the summer pair (23.0, 26.0) iff the observed month is June to September, the winter pair (20.0, 23.5) otherwise; fails only when the date does |
| FixedControl.CustomZoneDefaultsToWinter | fixed_control.py:97-98 | with no `month` name the month defaults to 1, hence winter |
| FixedControl.Adjust | fixed_control.py:157-165 | below the range both setpoints rise by 1, above both fall by 1, within it they stay; the gap cool − heat is kept |
| FixedControl.Clamp | fixed_control.py:168-179 | the result lies in the bounds; a value already inside is unchanged, one below becomes the lower bound and one above the upper bound |
| FixedControl.SundayAction | fixed_control.py:183-186 | the Sunday action `2*((18.33, 23.33) - low)/(high - low) - 1` is (-0.89, -0.6675) |
| FixedControl.RuleBasedAct | fixed_control.py:115-188 | succeeds iff the outdoor temperature, a valid date, the zone temperature and both setpoints are present; otherwise fails with the first failure in source order (outdoor temperature `KeyError`, date error, zone temperature, heating setpoint, cooling setpoint `KeyError`); on Sunday the fixed normalised action; on any other day heating in [18, 24] and cooling in [22, 30] |
| FixedControl.RuleBasedActStep | fixed_control.py:144-179 | off Sunday each setpoint moves by the same +1, −1 or 0 against the winter range whatever the season, then is clipped into its side of the box |
| FixedControl.ScriptRuleBasedAct | fixed_control.py:36-44 | with the script's names the current setpoints are the first two observation entries, the second also serving as zone temperature, and there is never a Sunday override |
| FixedControl.ScriptCustomZoneAct | fixed_control.py:77-78 | with the script's names `CustomZone.act` always returns the winter pair |
| FixedControl.MeanBounds | fixed_control.py:224 | the episode average lies between any bounds of the step demands |
| FixedControl.EpisodeLength | fixed_control.py:204 | an episode runs at least one step, stops at the first terminated or truncated step, and does not stop before it; a trace with no such step is cut at its end |
| FixedControl.EpisodeLengthIs | fixed_control.py:204 | the step at which the loop stops is the episode length |
| FixedControl.RunEpisode | fixed_control.py:195-224 | the loop collects the rewards of the episode's steps, counts them, and returns the total demand over the count, or 0 for no steps |
| FixedControl.RunEpisodes | fixed_control.py:195-228 | each episode's average, from a fresh reset, in order |

## Left out

- `run_eplus` and `sub_one_field_and_run`: they start the EnergyPlus executable in a temporary directory and read its CSV output. A run is represented by the IDF text it would be given.
- File reading in `sub_one_field`, `read` and `write`: the IDF text and the weather file's records are parameters, and `write` returns its records.
- Regular-expression metacharacters in `obj`, `name` or `field`: the markers are matched literally.
- Backslash escapes in the replacement: `re.sub` interprets them in `str(value)`. The model inserts `str(value)` literally.
- `str()` of a float: a `Float` value carries its text.
- IdfSubstitution.IntToString: Python 3.12's `str()` raises ValueError for an int of more than 4300 decimal digits, the default integer string conversion limit, so `re_substitute` fails on such a value. The model converts every integer and does not model that error.
- `str.isdigit()` beyond ASCII digits.
- CSV quoting and multi-line quoted fields: a record is one line.
- Table type inference: cells are kept as text or missing.
- A first climate record wider than 35 fields: the table reader would turn the extra leading columns into an index. The model reports `TooManyFields` for any record wider than 35.
- `write` after a failed attribute lookup on a missing table: the file already holds the header lines. The model returns them with the failure.
- The environment's behaviour: its step outcomes are a parameter of the episode loop, not a function of the controller's actions.
- Logging: the wandb and print calls.
- float32 rounding of setpoints and actions: reals are used.
- PathExpansion.AbsPath: requires an absolute working directory, which `os.getcwd()` always returns.
- PathExpansion.ExpandPath: requires an absolute working directory, which `os.getcwd()` always returns.
- FixedControl.EpisodeLength: a trace with no terminated or truncated step is counted up to its end, where the source loop would keep stepping; the environment's steps are a finite parameter.
- FixedControl.RunEpisode: a trace with no terminated or truncated step is cut at its end, where the source loop would keep stepping.
- FixedControl.RunEpisodes: an episode whose trace has no terminated or truncated step is cut at the trace's end, as in RunEpisode.
