/** The two patch jobs: each is one run of the shared mechanism with its own
    signature pair and replacement body. The bodies are the corrected Python
    functions, held as opaque text. */
module FixJobs {
  import opened Text
  import opened CellPatch

  // ---------------------------------------------------------------------
  // fix_normalize_function: repairs normalize_column_names.

  const NormalizeDefinitionMarker: string := "def normalize_column_names"
  const NormalizeDefectMarker: string := "col_indices[1:]"

  /** The corrected normalize_column_names, as one text. */
  const NormalizeBody: string :=
    "def normalize_column_names(df):\n"
      + "    \"\"\"Normalize column names: lowercase, strip, handle duplicates\"\"\"\n"
      + "    df = df.copy()\n"
      + "    \n"
      + "    # Step 1: Strip and lowercase\n"
      + "    df.columns = df.columns.str.strip().str.lower()\n"
      + "    \n"
      + "    # Step 2: Identify duplicate column names\n"
      + "    counts = Counter(df.columns)\n"
      + "    duplicate_groups = {name: [] for name, count in counts.items() if count > 1}\n"
      + "    \n"
      + "    # Step 3: Group duplicate columns by name and get their positions\n"
      + "    for idx, col_name in enumerate(df.columns):\n"
      + "        if col_name in duplicate_groups:\n"
      + "            duplicate_groups[col_name].append(idx)\n"
      + "    \n"
      + "    # Step 4: Combine duplicate columns and build new dataframe\n"
      + "    combined_data = {}\n"
      + "    processed_duplicates = set()\n"
      + "    \n"
      + "    for idx, col_name in enumerate(df.columns):\n"
      + "        # Skip if this column is a duplicate we've already processed\n"
      + "        if col_name in processed_duplicates:\n"
      + "            continue\n"
      + "            \n"
      + "        if col_name in duplicate_groups:\n"
      + "            # This is a duplicate group - combine them\n"
      + "            duplicate_indices = duplicate_groups[col_name]\n"
      + "            \n"
      + "            # Get all duplicate columns\n"
      + "            duplicate_cols = df.iloc[:, duplicate_indices]\n"
      + "            \n"
      + "            # Combine using backfill (fill missing values from right to left)\n"
      + "            combined = duplicate_cols.bfill(axis=1).iloc[:, 0]\n"
      + "            \n"
      + "            combined_data[col_name] = combined\n"
      + "            \n"
      + "            # Mark all duplicates as processed\n"
      + "            processed_duplicates.add(col_name)\n"
      + "        else:\n"
      + "            # Regular column - keep as is\n"
      + "            combined_data[col_name] = df.iloc[:, idx]\n"
      + "    \n"
      + "    # Step 5: Create new dataframe with unique columns\n"
      + "    result_df = pd.DataFrame(combined_data)\n"
      + "    \n"
      + "    # Step 6: Ensure no remaining duplicates (safety check)\n"
      + "    result_df = result_df.loc[:, ~result_df.columns.duplicated()]\n"
      + "    \n"
      + "    return result_df"

  const NormalizeJob: Job := Job(NormalizeDefinitionMarker, NormalizeDefectMarker, NormalizeBody)

  /** The search-and-replace loop of fix_normalize_function. */
  method FixNormalizeFunction<Extra>(cells: array<Cell<Extra>>) returns (found: bool)
    modifies cells
    ensures cells[..] == Patched(old(cells[..]), NormalizeJob)
    ensures found <==> FirstTarget(old(cells[..]), NormalizeJob).Some?
  {
    found := ApplyPatch(cells, NormalizeJob);
  }

  // ---------------------------------------------------------------------
  // fix_validate_function: repairs validate_data_quality.

  const ValidateDefinitionMarker: string := "def validate_data_quality"
  const ValidateDefectMarker: string := "valid_dates.min()"

  /** The corrected validate_data_quality, as one text. */
  const ValidateBody: string :=
    "def validate_data_quality(df, file_name):\n"
      + "    \"\"\"Validate data quality and return report\"\"\"\n"
      + "    report = {\n"
      + "        'file': file_name,\n"
      + "        'rows': len(df),\n"
      + "        'columns': len(df.columns),\n"
      + "        'missing_dates': 0,\n"
      + "        'missing_totals': 0,\n"
      + "        'duplicate_rows': 0,\n"
      + "        'date_range': None\n"
      + "    }\n"
      + "    \n"
      + "    # Check for date column\n"
      + "    date_col = None\n"
      + "    for col in DATE_COLUMNS:\n"
      + "        if col.lower() in df.columns:\n"
      + "            date_col = col.lower()\n"
      + "            break\n"
      + "    \n"
      + "    if date_col:\n"
      + "        report['missing_dates'] = df[date_col].isna().sum()\n"
      + "        valid_dates = df[date_col].dropna()\n"
      + "        \n"
      + "        if len(valid_dates) > 0:\n"
      + "            # Convert to datetime if needed (handle mixed types)\n"
      + "            try:\n"
      + "                # Try to convert to datetime if not already\n"
      + "                if not pd.api.types.is_datetime64_any_dtype(valid_dates):\n"
      + "                    valid_dates = pd.to_datetime(valid_dates, errors='coerce')\n"
      + "                \n"
      + "                # Only compute min/max if we have valid datetime values\n"
      + "                valid_datetime = valid_dates.dropna()\n"
      + "                if len(valid_datetime) > 0:\n"
      + "                    report['date_range'] = (valid_datetime.min(), valid_datetime.max())\n"
      + "            except Exception as e:\n"
      + "                # If conversion fails, skip date range\n"
      + "                logger.warning(f\"Could not compute date range for {file_name}: {e}\")\n"
      + "                report['date_range'] = None\n"
      + "    \n"
      + "    # Check for total column\n"
      + "    if 'total' in df.columns:\n"
      + "        report['missing_totals'] = df['total'].isna().sum()\n"
      + "    \n"
      + "    # Check for duplicates\n"
      + "    if date_col:\n"
      + "        report['duplicate_rows'] = df.duplicated(subset=[date_col]).sum()\n"
      + "    \n"
      + "    return report"

  const ValidateJob: Job := Job(ValidateDefinitionMarker, ValidateDefectMarker, ValidateBody)

  /** The search-and-replace loop of fix_validate_function. */
  method FixValidateFunction<Extra>(cells: array<Cell<Extra>>) returns (found: bool)
    modifies cells
    ensures cells[..] == Patched(old(cells[..]), ValidateJob)
    ensures found <==> FirstTarget(old(cells[..]), ValidateJob).Some?
  {
    found := ApplyPatch(cells, ValidateJob);
  }

  // ---------------------------------------------------------------------
  // Re-running a job.

  /** Neither defect marker holds a newline, so the newline the rewrite adds
      after the body cannot complete a marker. */
  lemma MarkersHaveNoNewline()
    ensures Newline !in NormalizeDefectMarker && Newline !in ValidateDefectMarker
  {
  }

  /** If the corrected normalize_column_names does not mention
      `col_indices[1:]`, a second run changes nothing exactly when the
      notebook held at most one defective copy. */
  lemma NormalizeRerun<Extra>(cells: seq<Cell<Extra>>)
    requires !Contains(NormalizeBody, NormalizeDefectMarker)
    ensures Patched(Patched(cells, NormalizeJob), NormalizeJob) == Patched(cells, NormalizeJob)
      <==> !HasSecondTarget(cells, NormalizeJob)
  {
    MarkersHaveNoNewline();
    ContainsAppendNewline(NormalizeBody, NormalizeDefectMarker);
    IdempotentIffSingleTarget(cells, NormalizeJob);
  }

  /** If the corrected validate_data_quality does not mention
      `valid_dates.min()` (it computes `valid_datetime.min()` instead), a
      second run changes nothing exactly when the notebook held at most one
      defective copy. */
  lemma ValidateRerun<Extra>(cells: seq<Cell<Extra>>)
    requires !Contains(ValidateBody, ValidateDefectMarker)
    ensures Patched(Patched(cells, ValidateJob), ValidateJob) == Patched(cells, ValidateJob)
      <==> !HasSecondTarget(cells, ValidateJob)
  {
    MarkersHaveNoNewline();
    ContainsAppendNewline(ValidateBody, ValidateDefectMarker);
    IdempotentIffSingleTarget(cells, ValidateJob);
  }
}
