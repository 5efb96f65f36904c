TestResult.DisplayName,TestResult.Outcome,TestResult.Duration,TestResult.ResourceCount,RandomSeed
GenerateArgs.ForeachDuplicateRejected (correctness),Passed,00:00:00.3339213,429759,0
GenerateArgs.ForeachDuplicateRejected (well-formedness),Passed,00:00:00.1599769,42035,0
