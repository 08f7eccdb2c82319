# Public-investment dashboard: record selection, modelled in Dafny

The dashboard loads a table of Peruvian public-investment records once, at
start-up. It keeps the rows that have a department (DEPARTAMENTO) and projects
them onto seven columns. The result is the summary table `resumen_df`.
Three charts are then drawn from the rows of that table that the user selects
by sector, by department (or the sentinel value `'todos'`, "all
departments") and by an inclusive range of registration years. When nothing
matches, all three charts are the same empty figure.

This project models that logic and proves its properties:

- `selection.dfy`: module `Wrappers` (the `Option` of a nullable cell).
  Module `Selection` holds the pandas primitives used: a boolean mask over
  rows (`Filter`), the positions a mask keeps (`KeptIndices`), and
  `Series.unique()` (`Unique`, values in first-occurrence order).
- `loader.dfy`: module `Loader`, for `data_loader.py`. It has the raw and the
  summary row types, the `DataLoader` class and the summary table `Summary`.
- `dashboard.dfy`: module `Dashboard`, for `main.py`. It has the department
  drop-down's options, the welcome message's close callback, the record
  selection of `update_graphs` and its three figures.

The summary table is a module-wide value in the program. Here every callback
that reads it takes it as an explicit parameter `resumen`. It is a Dafny value, so no
callback can change it.

## Model

| member | source | states |
|---|---|---|
| `Selection.Filter` | main.py:123-129 | a boolean mask keeps only rows it holds for, and never more rows than the input has |
| `Selection.KeptIndices` | main.py:123-129 | the positions a mask keeps are strictly increasing, in range, hold the mask, and include every position where the mask holds |
| `Selection.FilterAtKeptIndices` | main.py:123-129 | the masked table is the input read at the kept positions, so it is a subsequence in the input's order (about `Selection.Filter`) |
| `Selection.FilterMembers` | main.py:123-129 | every kept row is a row of the input, and every input row the mask holds for is kept (about `Selection.Filter`) |
| `Selection.FilterFilter` | main.py:125-129 | masking by one mask and then by another equals masking once by their conjunction (about `Selection.Filter`) |
| `Selection.Unique` | main.py:8 | `unique()` lists exactly the values of the column, each once |
| `Selection.UniqueFirstOccurrenceOrder` | main.py:8 | `unique()` lists values in the order of their first occurrence in the column (about `Selection.Unique`) |
| `Loader.DataLoader.constructor` | data_loader.py:4-5 | the loader's `df` field holds the loaded rows unchanged, in file order |
| `Loader.SummaryIsProjectionOfNonNullRows` | data_loader.py:21 | the summary table is the loaded table read at the positions whose DEPARTAMENTO is not null, in the original order; each summary row copies the seven columns of its source row unchanged; its length is the number of non-null-department rows (about `Loader.Summary`) |
| `Loader.SummaryRetainsNonNullRow` | data_loader.py:21 | no row with a non-null DEPARTAMENTO is dropped: its projection is in the summary table (about `Loader.Summary`) |
| `Loader.SummaryRowsComeFromNonNullRows` | data_loader.py:21 | every summary row is the seven-column projection of a loaded row whose DEPARTAMENTO is not null (about `Loader.Summary`) |
| `Loader.LoadSummary` | data_loader.py:16-21 | start-up (build the loader, then derive `resumen_df`) yields the summary of the parsed rows |
| `Dashboard.DepartmentOptionsShape` | main.py:8-11 | the option list begins with the `'todos'` entry and continues with one entry per listed department, in order, with the same label and value (about `Dashboard.DepartmentOptions`) |
| `Dashboard.ListedDepartmentsExactly` | main.py:8 | the listed departments are exactly the non-empty departments of the summary table: each is some row's department, every row's non-empty department is listed, and none is listed twice (about `Dashboard.ListedDepartments`) |
| `Dashboard.ListedDepartmentsFirstOccurrenceOrder` | main.py:8 | the listed departments follow the order of their first row in the summary table (about `Dashboard.ListedDepartments`) |
| `Dashboard.CloseWelcomeMessage` | main.py:104-108 | the welcome message is hidden if and only if the click count is positive, and shown otherwise |
| `Dashboard.WelcomeStaysClosed` | main.py:104-108 | the message is shown at zero clicks, and a larger click count never shows it again (about `Dashboard.CloseWelcomeMessage`) |
| `Dashboard.SelectRowsIsPolicyMask` | main.py:121-129 | the two-stage masking (sector and department, then year) selects the same rows as the single policy: sector selected, and `'todos'` selected or department selected, and year within the range (about `Dashboard.SelectRows`) |
| `Dashboard.SelectRowsSound` | main.py:121-129 | every selected row is a summary row whose sector is selected, whose department is selected when `'todos'` is not, and whose year lies in the range with both ends included (about `Dashboard.SelectRows`) |
| `Dashboard.SelectRowsComplete` | main.py:121-129 | every summary row that meets the policy is selected (about `Dashboard.SelectRows`) |
| `Dashboard.SelectRowsInTableOrder` | main.py:123-129 | the selection is the summary table read at strictly increasing positions, and those positions are exactly the matching ones (about `Dashboard.SelectRows`) |
| `Dashboard.AllDepartmentsTakesPrecedence` | main.py:121-123 | when `'todos'` is among the selected departments, the other names are ignored: the result is the sector-and-year selection, the same as selecting `'todos'` alone (about `Dashboard.SelectRows`) |
| `Dashboard.EveryDepartmentSelectsAsAll` | main.py:121-126 | selecting every department that occurs in the table gives the same rows as selecting `'todos'` (about `Dashboard.SelectRows`) |
| `Dashboard.InvertedYearRangeSelectsNothing` | main.py:129 | a year range whose lower end exceeds its upper end selects no row (about `Dashboard.SelectRows`) |
| `Dashboard.UpdateGraphsFromMatchingRows` | main.py:132-155 | the three outputs are one and the same empty figure when no summary row matches; otherwise the three charts are all drawn from the same non-empty list, the matching rows in table order (about `Dashboard.UpdateGraphs`) |
| `Dashboard.UpdateGraphsEmptyIffNoMatch` | main.py:132-135 | the outputs are three empty figures if and only if no summary row matches the selection (about `Dashboard.UpdateGraphs`) |
| `Dashboard.TacnaScenario` | main.py:119-155 | a single TACNA record of 2023 in GOBIERNOS LOCALES is charted for its own sector, department and years 2023-2024, and gives empty figures for years 2020-2021 or for sector SALUD (about `Dashboard.UpdateGraphs`) |

## Left out

- The Dash application, its layout, styles, fonts, logo and callback wiring (main.py:16-97, main.py:99-118): these are UI framework configuration.
- Plotly figure construction (main.py:134, main.py:138-153): a figure is modelled only by the rows it is drawn from. The line series, the treemap's sum aggregation and colour scale, and the bars are computed inside the charting library.
- Reading the CSV file and coercing FECHA_REGISTRO with `pd.to_datetime` (data_loader.py:7-13). Rows arrive already parsed, with a date whose year is an integer. A parse failure, and the branch where the column is missing, are file I/O and foreign parsing. The model does not capture them.
- The year slider's bounds and marks, the sector drop-down's options and the default widget values (main.py:14, main.py:62-92): these are presentation configuration.
- `app.run_server` and its host and port (main.py:158-159): server plumbing.
- MONTO_VIABLE, COSTO_ACTUALIZADO and AVANCE_FISICO as numbers. They are float64 cells that are only passed through to the charts, so they are carried as their uninterpreted 64-bit patterns.
- Null cells other than DEPARTAMENTO. A null SECTOR or an unparsed date (NaT) would fail every mask. The model gives each such column a value of its type.
- Selections that are not lists. A cleared drop-down sent as `None`, or a slider value with fewer than two years, makes the callback raise. The model takes the selections as sequences and the year range as a pair `YearRange(low, high)`.
- There is no reentrancy or concurrency to model. The callbacks are pure functions of their inputs and of the summary table.

The department selection is a list. `update_graphs` tests whether `'todos'`
is in it (main.py:121), so a list may hold the sentinel together with names;
`Dashboard.AllDepartmentsTakesPrecedence` proves that the sentinel wins.
