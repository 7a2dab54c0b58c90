/**
 The contact form's submission handler: the class ContactForm with the two
 rate-limit fields it updates in place, the submit button's label and
 disabled flag, and the messages handed to the delivery service. The clock
 readings and the delivery service's answer are parameters.
 */
module Contact {
  import opened Validation
  import RateLimit

  class ContactForm {
    var lastSubmissionTime: int
    var submissionCount: int
    /** The submit button's textContent and disabled flag. */
    var submitText: string
    var submitDisabled: bool
    /** Every message passed to the delivery service, in order. */
    var outbox: seq<FormData>

    /** The two rate-limit fields as a value of the limiter model. */
    function Limiter(): RateLimit.Limiter
      reads this
    {
      RateLimit.Limiter(lastSubmissionTime, submissionCount)
    }

    /** Between submissions the counter stays within the limit and the button is enabled. */
    ghost predicate Valid()
      reads this
    {
      0 <= submissionCount <= RateLimit.MaxSubmissions && !submitDisabled
    }

    constructor(buttonText: string)
      ensures Limiter() == RateLimit.Initial
      ensures submitText == buttonText && !submitDisabled && outbox == []
      ensures Valid()
    {
      lastSubmissionTime := 0;
      submissionCount := 0;
      submitText := buttonText;
      submitDisabled := false;
      outbox := [];
    }

    /** checkRateLimit with the clock reading now. */
    method CheckRateLimit(now: int) returns (allowed: bool)
      modifies this`submissionCount
      ensures submissionCount == (if now - lastSubmissionTime > RateLimit.RateLimitWindow then 0 else old(submissionCount))
      ensures allowed <==> submissionCount < RateLimit.MaxSubmissions
      ensures (Limiter(), allowed) == RateLimit.Check(old(Limiter()), now)
    {
      if now - lastSubmissionTime > RateLimit.RateLimitWindow {
        submissionCount := 0;
      }
      allowed := submissionCount < RateLimit.MaxSubmissions;
    }

    /** updateRateLimit with the clock reading now. */
    method UpdateRateLimit(now: int)
      modifies this`lastSubmissionTime, this`submissionCount
      ensures lastSubmissionTime == now
      ensures submissionCount ==
              (if now - old(lastSubmissionTime) > RateLimit.RateLimitWindow then 1 else old(submissionCount) + 1)
      ensures Limiter() == RateLimit.Update(old(Limiter()), now)
    {
      if now - lastSubmissionTime > RateLimit.RateLimitWindow {
        submissionCount := 1;
      } else {
        submissionCount := submissionCount + 1;
      }
      lastSubmissionTime := now;
    }

    /** sendEmail: hands the message to the delivery service. */
    method SendEmail(data: FormData)
      modifies this`outbox
      ensures outbox == old(outbox) + [data]
    {
      outbox := outbox + [data];
    }

    /**
     handleSubmit: the rate check, then validation, then the send with the
     button disabled, then the count update only when the send succeeded
     (delivered), and the button restored whichever way the send went. The
     outcome names the message shown to the user.
     */
    method HandleSubmit(data: FormData, checkNow: int, delivered: bool, updateNow: int)
      returns (outcome: RateLimit.Outcome)
      modifies this
      ensures (Limiter(), outcome) ==
              RateLimit.Submit(old(Limiter()), checkNow, ValidateInput(data), delivered, updateNow)
      ensures outbox ==
              if outcome in {RateLimit.RateLimited, RateLimit.ValidationFailed} then old(outbox)
              else old(outbox) + [data]
      ensures submitText == old(submitText)
      ensures submitDisabled ==
              if outcome in {RateLimit.RateLimited, RateLimit.ValidationFailed} then old(submitDisabled)
              else false
      ensures old(Valid()) ==> Valid()
    {
      var allowed := CheckRateLimit(checkNow);
      if !allowed {
        return RateLimit.RateLimited;
      }
      if !ValidateInput(data) {
        return RateLimit.ValidationFailed;
      }
      var originalText := submitText;
      submitText := "Sending...";
      submitDisabled := true;
      SendEmail(data);
      if delivered {
        UpdateRateLimit(updateNow);
        outcome := RateLimit.Delivered;
      } else {
        outcome := RateLimit.DeliveryFailed;
      }
      submitText := originalText;
      submitDisabled := false;
    }
  }

  /**
   A fresh form; the sample message sent three times within a second, which
   goes through each time, then a fourth time, which is rate-limited and not
   sent.
   */
  method FourthQuickSubmissionIsLimited() returns (outcomes: seq<RateLimit.Outcome>, sent: nat)
    ensures outcomes == [RateLimit.Delivered, RateLimit.Delivered, RateLimit.Delivered, RateLimit.RateLimited]
    ensures sent == 3
  {
    var form := new ContactForm("Send Message");
    var data := FormData(Some("Jo"), Some("jo@x.com"), Some("Hi"), Some("Hello there"));
    SampleAccepted();
    var t := 1700000000000;
    var o1 := form.HandleSubmit(data, t, true, t + 200);
    var o2 := form.HandleSubmit(data, t + 300, true, t + 500);
    var o3 := form.HandleSubmit(data, t + 600, true, t + 800);
    var o4 := form.HandleSubmit(data, t + 900, true, t + 1100);
    outcomes := [o1, o2, o3, o4];
    sent := |form.outbox|;
  }
}
