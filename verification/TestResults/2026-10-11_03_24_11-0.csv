TestResult.DisplayName,TestResult.Outcome,TestResult.Duration,TestResult.ResourceCount,RandomSeed
GenerateArgs.ForeachDuplicateRejected (correctness),Passed,00:00:00.2828250,396494,2
GenerateArgs.ForeachDuplicateRejected (well-formedness),Passed,00:00:00.1513498,42076,2
