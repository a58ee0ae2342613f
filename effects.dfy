/**
 * The side effects of one tick of the supervision scripts. The model does not run
 * `scancel`, `sbatch` or `scontrol`, nor touch files: it returns, in order, what the
 * scripts would run or change.
 */
module Effects {

  datatype Action =
    | Cancel(jobId: int)                         // `scancel <jobId>`
    | Submit(script: string, cwd: string)        // `sbatch <script>`, run in directory `cwd`
    | Release(heldId: string)                    // `scontrol release <heldId>`
    | WriteFile(path: string, contents: string)  // the file at `path` is overwritten
    | RemoveFile(path: string)                   // the file at `path` is removed
    | DeleteRegistration(jobId: int)             // the registration `<jobId>.json` is removed
}
